/**
 * The board engine (src/modules/board/board-keeper.ts). A board is an
 * `array2<int>` of encoded cells that every operation updates in place;
 * the contracts speak about `Snap(board)`, the board's value as rows.
 */
module BoardKeeper {
  import opened CellTypes
  import opened CellKeeper
  import opened Grids
  import opened Mines
  import opened FloodFill
  import opened Solver

  /** The current value of the board. */
  ghost function Snap(board: array2<int>): (g: Grid)
    reads board
    ensures |g| == board.Length0 && IsRect(g)
    ensures board.Length0 > 0 ==> Width(g) == board.Length1
    ensures forall i, j :: 0 <= i < board.Length0 && 0 <= j < board.Length1 ==> g[i][j] == board[i, j]
  {
    seq(board.Length0, i reads board =>
      seq(board.Length1, j reads board =>
        if 0 <= i < board.Length0 && 0 <= j < board.Length1 then board[i, j] else 0))
  }

  /** A value that agrees with the board cell by cell is its snapshot. */
  lemma SnapIs(board: array2<int>, g: Grid)
    requires |g| == board.Length0 && IsRect(g) && (board.Length0 > 0 ==> Width(g) == board.Length1)
    requires forall i, j :: 0 <= i < board.Length0 && 0 <= j < board.Length1 ==> g[i][j] == board[i, j]
    ensures Snap(board) == g
  {
    var s := Snap(board);
    forall i | 0 <= i < |g|
      ensures s[i] == g[i]
    {
    }
  }

  /** Writing one cell changes the snapshot at that cell only. */
  method SetCell(board: array2<int>, p: Coord, v: int)
    requires 0 <= p.0 < board.Length0 && 0 <= p.1 < board.Length1
    modifies board
    ensures Snap(board) == Set(old(Snap(board)), p, v)
  {
    ghost var g0 := Snap(board);
    board[p.0, p.1] := v;
    SnapIs(board, Set(g0, p, v));
  }

  /** The board's own dimensions give the neighbours its snapshot has. */
  lemma SnapNeighbours(board: array2<int>, p: Coord)
    ensures Neighbours(board.Length0, board.Length1, p.0, p.1) == NeighboursOf(Snap(board), p)
  {
    if board.Length0 == 0 {
      var a := Neighbours(board.Length0, board.Length1, p.0, p.1);
      var b := NeighboursOf(Snap(board), p);
      if a != [] {
        NeighboursMembers(board.Length0, board.Length1, p.0, p.1, a[0]);
      }
      if b != [] {
        NeighboursMembers(0, 0, p.0, p.1, b[0]);
      }
    }
  }

  /** The cells around (row, col), visited row by row as `getNeighbours` does. */
  method GetNeighbours(board: array2<int>, row: int, col: int) returns (neighbours: seq<Coord>)
    ensures neighbours == Neighbours(board.Length0, board.Length1, row, col)
  {
    var h, w := board.Length0, board.Length1;
    neighbours := [];
    for nRow := -1 to 2
      invariant neighbours == NeighboursUpTo(h, w, row, col, 3 * (nRow + 1))
    {
      var nRowIndex := nRow + row;
      if nRowIndex < 0 || nRowIndex >= h {
        RowOffBoard(h, w, row, col, nRow);
        continue;
      }
      neighbours := AddRowNeighbours(h, w, row, col, nRow, neighbours);
    }
  }

  /** A row offset that leaves the board contributes no neighbour. */
  lemma RowOffBoard(h: int, w: int, row: int, col: int, nRow: int)
    requires -1 <= nRow <= 1 && !(0 <= nRow + row < h)
    ensures NeighboursUpTo(h, w, row, col, 3 * (nRow + 1) + 3) == NeighboursUpTo(h, w, row, col, 3 * (nRow + 1))
  {
    CandidateAt(row, col, nRow, -1);
    CandidateAt(row, col, nRow, 0);
    CandidateAt(row, col, nRow, 1);
    var k := 3 * (nRow + 1);
    assert NeighboursUpTo(h, w, row, col, k + 1) == NeighboursUpTo(h, w, row, col, k);
    assert NeighboursUpTo(h, w, row, col, k + 2) == NeighboursUpTo(h, w, row, col, k);
  }

  /** The neighbours in row `row + nRow`, appended left to right. */
  method AddRowNeighbours(h: int, w: int, row: int, col: int, nRow: int, neighbours: seq<Coord>)
    returns (neighbours': seq<Coord>)
    requires -1 <= nRow <= 1 && 0 <= nRow + row < h
    requires neighbours == NeighboursUpTo(h, w, row, col, 3 * (nRow + 1))
    ensures neighbours' == NeighboursUpTo(h, w, row, col, 3 * (nRow + 1) + 3)
  {
    neighbours' := neighbours;
    for nCol := -1 to 2
      invariant neighbours' == NeighboursUpTo(h, w, row, col, 3 * (nRow + 1) + nCol + 1)
    {
      CandidateAt(row, col, nRow, nCol);
      if nRow == 0 && nCol == 0 {
        continue;
      }
      var nColIndex := nCol + col;
      if nColIndex < 0 || nColIndex >= w {
        continue;
      }
      neighbours' := neighbours' + [(nRow + row, nColIndex)];
    }
  }

  /** A mine adds one to the count of each of its neutral neighbours; a neutral cell changes nothing. */
  method IncrementNeighboursForCell(board: array2<int>, row: int, col: int)
    requires 0 <= row < board.Length0 && 0 <= col < board.Length1
    modifies board
    ensures forall i, j :: 0 <= i < board.Length0 && 0 <= j < board.Length1 ==>
      board[i, j] ==
        if IsMine(old(board[row, col])) && (i, j) in Neighbours(board.Length0, board.Length1, row, col)
        then IncrementCell(old(board[i, j]))
        else old(board[i, j])
  {
    var cell := board[row, col];
    var info := GetCellInfo(cell);
    if info.kind == Mine {
      var neighbours := GetNeighbours(board, row, col);
      NeighboursShape(board.Length0, board.Length1, row, col);
      for t := 0 to |neighbours|
        invariant forall i, j :: 0 <= i < board.Length0 && 0 <= j < board.Length1 ==>
          board[i, j] == if (i, j) in neighbours[..t] then IncrementCell(old(board[i, j])) else old(board[i, j])
      {
        var (nRow, nCol) := neighbours[t];
        NeighboursMembers(board.Length0, board.Length1, row, col, neighbours[t]);
        assert neighbours[..t + 1] == neighbours[..t] + [neighbours[t]];
        assert neighbours[t] !in neighbours[..t];
        board[nRow, nCol] := IncrementCell(board[nRow, nCol]);
      }
      assert neighbours[..|neighbours|] == neighbours;
    }
  }

  /**
   * The counting pass of generation: on a board of mines and digit-0 cells,
   * every neutral cell ends with the number of mines around it.
   */
  method IncrementNeighbours(board: array2<int>)
    requires Uncounted(Snap(board))
    modifies board
    ensures Counted(old(Snap(board)), Snap(board))
  {
    ghost var g0 := Snap(board);
    var h, w := board.Length0, board.Length1;
    PartialCountEnds(g0);
    for row := 0 to h
      invariant forall i, j :: 0 <= i < h && 0 <= j < w ==> board[i, j] == PartialCount(g0, (i, j), (row, 0))
    {
      CountRow(board, g0, row);
    }
    ghost var g1 := Snap(board);
    assert forall i, j :: 0 <= i < h && 0 <= j < w ==>
      g1[i][j] == if IsMine(g0[i][j]) then g0[i][j] else g0[i][j] + MineCount(g0, (i, j));
  }

  /** One row of the counting pass. */
  method CountRow(board: array2<int>, ghost g0: Grid, row: int)
    requires Uncounted(g0) && |g0| == board.Length0 && Width(g0) == board.Length1
    requires 0 <= row < board.Length0
    requires forall i, j :: 0 <= i < board.Length0 && 0 <= j < board.Length1 ==>
      board[i, j] == PartialCount(g0, (i, j), (row, 0))
    modifies board
    ensures forall i, j :: 0 <= i < board.Length0 && 0 <= j < board.Length1 ==>
      board[i, j] == PartialCount(g0, (i, j), (row + 1, 0))
  {
    var h, w := board.Length0, board.Length1;
    for col := 0 to w
      invariant forall i, j :: 0 <= i < h && 0 <= j < w ==> board[i, j] == PartialCount(g0, (i, j), (row, col))
    {
      CountStep(board, g0, row, col);
    }
    PartialCountRowEnd(g0, row);
  }

  /** One iteration of the counting pass: visiting (row, col) advances every cell's partial count. */
  method CountStep(board: array2<int>, ghost g0: Grid, row: int, col: int)
    requires Uncounted(g0) && |g0| == board.Length0 && Width(g0) == board.Length1
    requires 0 <= row < board.Length0 && 0 <= col < board.Length1
    requires forall i, j :: 0 <= i < board.Length0 && 0 <= j < board.Length1 ==>
      board[i, j] == PartialCount(g0, (i, j), (row, col))
    modifies board
    ensures forall i, j :: 0 <= i < board.Length0 && 0 <= j < board.Length1 ==>
      board[i, j] == PartialCount(g0, (i, j), (row, col + 1))
  {
    var h, w := board.Length0, board.Length1;
    assert Neighbours(h, w, row, col) == NeighboursOf(g0, (row, col));
    forall i, j | 0 <= i < h && 0 <= j < w && !IsMine(g0[i][j])
      ensures !IsMine(board[i, j])
    {
      NeighboursInGrid(g0, (i, j));
      NeighboursShape(h, w, i, j);
      DigitAfterCount(g0[i][j], CountBefore(g0, NeighboursOf(g0, (i, j)), (row, col)));
    }
    IncrementNeighboursForCell(board, row, col);
    forall i, j | 0 <= i < h && 0 <= j < w
      ensures board[i, j] == PartialCount(g0, (i, j), (row, col + 1))
    {
      var ns := NeighboursOf(g0, (i, j));
      NeighboursInGrid(g0, (i, j));
      NeighboursShape(h, w, i, j);
      CountBeforeStep(g0, ns, row, col);
      NeighboursSymmetric(h, w, (i, j), (row, col));
      if !IsMine(g0[i][j]) && (row, col) in ns && IsMine(g0[row][col]) {
        DigitAfterCount(g0[i][j], CountBefore(g0, ns, (row, col)) + 1);
      }
    }
  }

  /**
   * The flood fill from (row, col): every neighbour is revealed, and the fill
   * goes on from each neighbour that was a Hidden neutral cell with digit 0.
   * It ends because each recursive call starts with fewer Hidden cells.
   */
  method RevealNeutralNeighbours(board: array2<int>, row: int, col: int)
    modifies board
    ensures Cascade(old(Snap(board)), Snap(board), (row, col))
    decreases HiddenCells(Snap(board))
  {
    ghost var g0 := Snap(board);
    var neighbours := GetNeighbours(board, row, col);
    SnapNeighbours(board, (row, col));
    NeighboursInGrid(g0, (row, col));
    PartialStart(g0, (row, col));
    for t := 0 to |neighbours|
      invariant Partial(g0, Snap(board), (row, col), t)
    {
      var neighbour := neighbours[t];
      assert neighbour in neighbours;
      ghost var g := Snap(board);
      var info := GetCellInfo(board[neighbour.0, neighbour.1]);
      SetCell(board, neighbour, RevealCell(board[neighbour.0, neighbour.1]));
      if info.kind != Neutral {
        StepPlain(g0, g, (row, col), t);
        continue;
      }
      if info.state == StateCode(Hidden) && info.modulo == 0 {
        OpeningShrinks(g0, g, (row, col), t);
        RevealNeutralNeighbours(board, neighbour.0, neighbour.1);
        StepBlank(g0, g, Snap(board), (row, col), t);
      } else {
        StepPlain(g0, g, (row, col), t);
      }
    }
    PartialDone(g0, Snap(board), (row, col));
  }

  /**
   * A left click. Only a Hidden cell is opened (`updated`); opening a mine
   * ends the game (`boom`), opening a neutral cell with digit 0 starts the
   * flood fill from it. On a consistent board the click keeps the board
   * consistent, and only a click on a mine opens a mine.
   */
  method HandleCellClick(board: array2<int>, row: int, col: int) returns (updated: bool, boom: bool)
    requires 0 <= row < board.Length0 && 0 <= col < board.Length1
    modifies board
    ensures updated <==> IsHidden(old(board[row, col]))
    ensures boom <==> updated && IsMine(old(board[row, col]))
    ensures Clicked(old(Snap(board)), Snap(board), (row, col))
  {
    ghost var g0 := Snap(board);
    var cell := board[row, col];
    var info := GetCellInfo(cell);
    updated, boom := false, false;
    if info.state == StateCode(Revealed) {
      return;
    }
    if info.state == StateCode(Flagged) {
      return;
    }
    var newValue := RevealCell(cell);
    if newValue == cell {
      return;
    }
    SetCell(board, (row, col), newValue);
    updated := true;
    if info.kind == Mine {
      boom := true;
    } else if info.modulo == 0 {
      RevealNeutralNeighbours(board, row, col);
    }
  }

  /**
   * A right click: a Hidden cell becomes Flagged, a Flagged cell Hidden again,
   * and a Revealed cell stays as it is. Flags change no mine and no digit,
   * so a consistent board stays consistent.
   */
  method HandleCellRightClick(board: array2<int>, row: int, col: int)
    requires 0 <= row < board.Length0 && 0 <= col < board.Length1
    modifies board
    ensures Snap(board) == Set(old(Snap(board)), (row, col), ToggleFlagValue(old(board[row, col])))
    ensures Consistent(old(Snap(board))) ==> SameMines(old(Snap(board)), Snap(board)) && Consistent(Snap(board))
  {
    ghost var g0 := Snap(board);
    var cell := board[row, col];
    var info := GetCellInfo(cell);
    var newValue := FlagCell(cell, info.kind, info.state);
    SetCell(board, (row, col), newValue);
    if Consistent(g0) {
      FlagKeepsMines(g0, (row, col));
    }
  }

  /**
   * The hint solver: sweeps the board row by row, and once more when the
   * first sweep proposes nothing. `rule` is `AsWritten` for `getNextStep`'s
   * test of a closed neighbour and `FlagsUnknown` for the corrected one.
   */
  method GetNextStep(board: array2<int>, rule: Rule) returns (moves: seq<Coord>)
    ensures moves == NextStep(Snap(board), rule)
  {
    ghost var g := Snap(board);
    var h := board.Length0;
    var bombs: set<Coord> := {};
    moves := [];
    var tries := 0;
    var row := 0;
    ghost var base := Nothing;
    while row < h
      invariant 0 <= row <= h && 0 <= tries <= 1
      invariant Knowledge(bombs, moves) == Scan(g, base, row, 0, rule)
      invariant base == if tries == 0 then Nothing else Sweep(g, Nothing, rule)
      invariant tries == 1 ==> |base.moves| == 0
      invariant tries == 0 && row == h ==> h == 0 || |moves| > 0
      decreases 1 - tries, h - row
    {
      bombs, moves := SweepRow(board, bombs, moves, row, rule, base);
      if row == h - 1 && |moves| == 0 && tries == 0 {
        base := Knowledge(bombs, moves);
        row := -1;
        tries := tries + 1;
      }
      row := row + 1;
    }
  }

  /** One row of the solver's sweep, left to right. */
  method SweepRow(board: array2<int>, bombs: set<Coord>, moves: seq<Coord>, row: int, rule: Rule, ghost base: Knowledge)
    returns (bombs': set<Coord>, moves': seq<Coord>)
    requires 0 <= row < board.Length0
    requires Knowledge(bombs, moves) == Scan(Snap(board), base, row, 0, rule)
    ensures Knowledge(bombs', moves') == Scan(Snap(board), base, row + 1, 0, rule)
  {
    ghost var g := Snap(board);
    bombs', moves' := bombs, moves;
    for col := 0 to board.Length1
      invariant Knowledge(bombs', moves') == Scan(g, base, row, col, rule)
    {
      bombs', moves' := VisitCellAt(board, bombs', moves', row, col, rule);
    }
    ScanStep(g, base, row + 1, 0, rule);
  }

  /** One cell of the solver's sweep: reads its digit and the state of its neighbours. */
  method VisitCellAt(board: array2<int>, bombs: set<Coord>, moves: seq<Coord>, row: int, col: int, rule: Rule)
    returns (bombs': set<Coord>, moves': seq<Coord>)
    requires 0 <= row < board.Length0 && 0 <= col < board.Length1
    ensures Knowledge(bombs', moves') == VisitCell(Snap(board), Knowledge(bombs, moves), (row, col), rule)
  {
    ghost var g := Snap(board);
    bombs', moves' := bombs, moves;
    var info := GetCellInfo(board[row, col]);
    if info.state == StateCode(Hidden) || info.kind != Neutral || info.modulo == 0 {
      return;
    }
    var neighbours := GetNeighbours(board, row, col);
    SnapNeighbours(board, (row, col));
    NeighboursInGrid(g, (row, col));
    var bombNeighbours, closed, openable := ClassifyNeighbours(board, neighbours, bombs, rule);
    if |closed| == info.modulo - |bombNeighbours| {
      bombs' := AddAll(bombs, closed);
    }
    if |bombNeighbours| == info.modulo {
      moves' := moves' + openable;
    }
  }

  /** Marks every cell of `cells` as a mine. */
  method AddAll(bombs: set<Coord>, cells: seq<Coord>) returns (bombs': set<Coord>)
    ensures bombs' == bombs + set q | q in cells
  {
    bombs' := bombs;
    for t := 0 to |cells|
      invariant bombs' == bombs + set q | q in cells[..t]
    {
      assert cells[..t + 1] == cells[..t] + [cells[t]];
      bombs' := bombs' + {cells[t]};
    }
    assert cells[..|cells|] == cells;
  }

  /**
   * The solver's split of the neighbours: those already deduced to be mines,
   * those still closed, and the closed ones it may propose.
   */
  method ClassifyNeighbours(board: array2<int>, neighbours: seq<Coord>, bombs: set<Coord>, rule: Rule)
    returns (bombNeighbours: seq<Coord>, closed: seq<Coord>, openable: seq<Coord>)
    requires AllInGrid(Snap(board), neighbours)
    ensures bombNeighbours == KnownBombs(neighbours, bombs)
    ensures closed == ClosedOnes(Snap(board), neighbours, bombs, rule)
    ensures openable == Proposals(Snap(board), closed, rule)
  {
    ghost var g := Snap(board);
    bombNeighbours, closed, openable := [], [], [];
    for t := 0 to |neighbours|
      invariant bombNeighbours == KnownBombs(neighbours[..t], bombs)
      invariant closed == ClosedOnes(g, neighbours[..t], bombs, rule)
      invariant openable == Proposals(g, closed, rule)
    {
      var (nRow, nCol) := neighbours[t];
      assert neighbours[t] in neighbours;
      ClassifyStep(g, neighbours, t, bombs, rule);
      var nInfo := GetCellInfo(board[nRow, nCol]);
      if (nRow, nCol) in bombs {
        bombNeighbours := bombNeighbours + [(nRow, nCol)];
      } else if nInfo.state == StateCode(Hidden) {
        closed := closed + [(nRow, nCol)];
        openable := openable + [(nRow, nCol)];
      } else if rule == FlagsUnknown && nInfo.state == StateCode(Flagged) {
        closed := closed + [(nRow, nCol)];
      }
    }
    assert neighbours[..|neighbours|] == neighbours;
  }
}
