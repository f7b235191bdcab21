/**
 * The game component (src/App.tsx): it generates a field (an empty board,
 * random mines, then the counting pass), answers left and right clicks on
 * a copy of the field, and asks the solver for the next moves, keeping each
 * move once. The component's state (`fields`, `moves`) is the class
 * `AppState`; every handler replaces the field with a new board rather than
 * changing the current one.
 */
module App {
  import opened CellTypes
  import opened CellKeeper
  import opened Grids
  import opened Mines
  import opened FloodFill
  import opened Solver
  import opened BoardKeeper

  /** A side-by-side board of Hidden neutral cells with digit 0. */
  method GenerateEmptyFields(side: nat) returns (board: array2<int>)
    ensures fresh(board) && board.Length0 == side && board.Length1 == side
    ensures forall i, j :: 0 <= i < side && 0 <= j < side ==> board[i, j] == 10
  {
    board := new int[side, side]((i, j) => 10);
  }

  /** The cell that the draw `randomCell`, a number below side * side, stands for. */
  function GetRandomCell(randomCell: int, side: int): (cell: Coord)
    requires side > 0 && 0 <= randomCell < side * side
    ensures 0 <= cell.0 < side && 0 <= cell.1 < side
    ensures cell.0 * side + cell.1 == randomCell
  {
    (randomCell / side, randomCell % side)
  }

  lemma {:induction false} MulAtLeast(k: int, side: int)
    requires k >= 1 && side > 0
    ensures k * side >= side
  {
    if k > 1 {
      MulAtLeast(k - 1, side);
      assert k * side == (k - 1) * side + side;
    }
  }

  /** Euclidean division has one quotient and one remainder. */
  lemma DivUnique(d: int, side: int, q: int, r: int)
    requires side > 0 && 0 <= r < side && d == q * side + r
    ensures d / side == q && d % side == r
  {
    var q', r' := d / side, d % side;
    assert (q - q') * side == r' - r;
    if q > q' {
      MulAtLeast(q - q', side);
    } else if q < q' {
      MulAtLeast(q' - q, side);
    }
  }

  /** The index of a cell lies below `side * side`. */
  lemma CellIndexBound(side: int, row: int, col: int)
    requires 0 <= row < side && 0 <= col < side
    ensures 0 <= row * side + col < side * side
  {
    assert 0 <= row * side;
    if row < side - 1 {
      MulAtLeast(side - 1 - row, side);
    }
    assert (side - 1 - row) * side >= 0;
    assert side * side == row * side + (side - 1 - row) * side + side;
  }

  /** Every cell is drawn by exactly one number: the draw picks each cell with the same chance. */
  lemma RandomCellOnto(side: int, row: int, col: int)
    requires 0 <= row < side && 0 <= col < side
    ensures 0 <= row * side + col < side * side
    ensures GetRandomCell(row * side + col, side) == (row, col)
    ensures forall d :: 0 <= d < side * side && GetRandomCell(d, side) == (row, col) ==> d == row * side + col
  {
    CellIndexBound(side, row, col);
    DivUnique(row * side + col, side, row, col);
  }

  /** Every draw stands for a cell. */
  predicate Draws(draws: seq<int>, side: int)
  {
    side > 0 && forall k :: 0 <= k < |draws| ==> 0 <= draws[k] < side * side
  }

  /** The cells the draws stand for. */
  function Hits(draws: seq<int>, side: int): (cells: set<Coord>)
    requires Draws(draws, side)
    ensures |cells| <= |draws|
    ensures forall c :: c in cells ==> InBounds(side, side, c)
  {
    if draws == [] then {}
    else Hits(draws[..|draws| - 1], side) + {GetRandomCell(draws[|draws| - 1], side)}
  }

  /** One more draw adds its cell to the hits. */
  lemma HitsStep(draws: seq<int>, used: nat, side: int)
    requires Draws(draws, side) && used < |draws|
    ensures Hits(draws[..used + 1], side) == Hits(draws[..used], side) + {GetRandomCell(draws[used], side)}
    ensures GetRandomCell(draws[used], side) in Hits(draws[..used], side) ==>
      Hits(draws[..used + 1], side) == Hits(draws[..used], side)
    ensures GetRandomCell(draws[used], side) !in Hits(draws[..used], side) ==>
      |Hits(draws[..used + 1], side)| == |Hits(draws[..used], side)| + 1
  {
    assert draws[..used + 1][..used] == draws[..used];
  }

  /**
   * The mine-placement loop: every draw names a cell; a cell that already
   * holds a mine is drawn again (`generateField`'s `i--`), any other becomes a
   * mine. The draws stand for the calls to `Math.random`; the loop stops when
   * `totalBombs` mines are placed or the draws run out.
   */
  method PlaceMines(board: array2<int>, totalBombs: nat, draws: seq<int>) returns (placed: nat, used: nat)
    requires board.Length0 == board.Length1 && Draws(draws, board.Length0)
    requires forall i, j :: 0 <= i < board.Length0 && 0 <= j < board.Length1 ==> board[i, j] == 10
    modifies board
    ensures used <= |draws| && placed <= totalBombs && (placed == totalBombs || used == |draws|)
    ensures |Hits(draws[..used], board.Length0)| == placed
    ensures forall i, j :: 0 <= i < board.Length0 && 0 <= j < board.Length1 ==>
      board[i, j] == if (i, j) in Hits(draws[..used], board.Length0) then 19 else 10
  {
    var side := board.Length0;
    placed, used := 0, 0;
    while placed < totalBombs && used < |draws|
      invariant used <= |draws| && placed <= totalBombs
      invariant |Hits(draws[..used], side)| == placed
      invariant forall i, j :: 0 <= i < side && 0 <= j < side ==>
        board[i, j] == if (i, j) in Hits(draws[..used], side) then 19 else 10
      decreases |draws| - used
    {
      var newMine := PlaceDraw(board, draws, used);
      used := used + 1;
      if newMine {
        placed := placed + 1;
      }
    }
  }

  /**
   * One turn of the placement loop: the cell of draw `used` becomes a mine,
   * unless it already holds one (`newMine` is then false and the draw is
   * retried with the next one).
   */
  method PlaceDraw(board: array2<int>, draws: seq<int>, used: nat) returns (newMine: bool)
    requires board.Length0 == board.Length1 && Draws(draws, board.Length0) && used < |draws|
    requires forall i, j :: 0 <= i < board.Length0 && 0 <= j < board.Length1 ==>
      board[i, j] == if (i, j) in Hits(draws[..used], board.Length0) then 19 else 10
    modifies board
    ensures newMine <==> GetRandomCell(draws[used], board.Length0) !in Hits(draws[..used], board.Length0)
    ensures |Hits(draws[..used + 1], board.Length0)| == |Hits(draws[..used], board.Length0)| + if newMine then 1 else 0
    ensures forall i, j :: 0 <= i < board.Length0 && 0 <= j < board.Length1 ==>
      board[i, j] == if (i, j) in Hits(draws[..used + 1], board.Length0) then 19 else 10
  {
    var side := board.Length0;
    var (row, col) := GetRandomCell(draws[used], side);
    assert (row, col) == GetRandomCell(draws[used], side);
    HitsStep(draws, used, side);
    if board[row, col] == 19 {
      return false;
    }
    board[row, col] := 19;
    return true;
  }

  /** The cells of a board that hold a mine. */
  ghost function MineCells(g: Grid): (cells: set<Coord>)
    requires IsRect(g)
    ensures forall c :: c in cells <==> InGrid(g, c) && IsMine(At(g, c))
  {
    set i, j | 0 <= i < |g| && 0 <= j < Width(g) && IsMine(g[i][j]) :: (i, j)
  }

  /** A board of Hidden mines (19) at `hits` and Hidden zeros (10) elsewhere is ready to be counted. */
  lemma MinesPlaced(g: Grid, hits: set<Coord>)
    requires IsRect(g)
    requires forall i, j :: 0 <= i < |g| && 0 <= j < Width(g) ==> g[i][j] == if (i, j) in hits then 19 else 10
    ensures Uncounted(g)
  {
  }

  /**
   * Counting such a board gives a consistent board of Hidden cells whose
   * mines are exactly at `hits`.
   */
  lemma CountedField(g0: Grid, g1: Grid, hits: set<Coord>)
    requires Uncounted(g0) && Counted(g0, g1)
    requires forall c :: c in hits ==> InGrid(g0, c)
    requires forall i, j :: 0 <= i < |g0| && 0 <= j < Width(g0) ==> g0[i][j] == if (i, j) in hits then 19 else 10
    ensures Consistent(g1) && MineCells(g1) == hits
    ensures forall i, j :: 0 <= i < |g1| && 0 <= j < Width(g1) ==> IsHidden(g1[i][j])
  {
    CountedConsistent(g0, g1);
    forall i, j | 0 <= i < |g1| && 0 <= j < Width(g1)
      ensures IsHidden(g1[i][j])
    {
      assert IsHidden(g0[i][j]);
    }
  }

  /**
   * A side-by-side board as a new game starts: consistent, every cell
   * Hidden, its mines on the cells named by a prefix of the draws, never
   * more than `totalBombs` of them, and exactly that many unless the draws
   * ran out.
   */
  ghost predicate NewGrid(g: Grid, side: nat, totalBombs: nat, draws: seq<int>)
    requires Draws(draws, side)
  {
    |g| == side && IsRect(g) && Width(g) == side && Consistent(g) &&
    (forall i, j :: 0 <= i < side && 0 <= j < side ==> IsHidden(g[i][j])) &&
    exists used ::
      0 <= used <= |draws| && MineCells(g) == Hits(draws[..used], side) &&
      |MineCells(g)| <= totalBombs && (|MineCells(g)| == totalBombs || used == |draws|)
  }

  /** The same for a board held in an array. */
  ghost predicate NewField(board: array2<int>, side: nat, totalBombs: nat, draws: seq<int>)
    requires Draws(draws, side)
    reads board
  {
    board.Length0 == side && board.Length1 == side && NewGrid(Snap(board), side, totalBombs, draws)
  }

  /** Placing the mines the draws name and counting gives a new game's board. */
  lemma DrawnField(g0: Grid, g1: Grid, side: nat, totalBombs: nat, draws: seq<int>, used: nat, placed: nat)
    requires Draws(draws, side) && used <= |draws| && placed <= totalBombs && (placed == totalBombs || used == |draws|)
    requires |Hits(draws[..used], side)| == placed
    requires |g0| == side && IsRect(g0) && Width(g0) == side
    requires forall i, j :: 0 <= i < |g0| && 0 <= j < Width(g0) ==>
      g0[i][j] == if (i, j) in Hits(draws[..used], side) then 19 else 10
    requires Counted(g0, g1)
    ensures NewGrid(g1, side, totalBombs, draws)
  {
    var hits := Hits(draws[..used], side);
    MinesPlaced(g0, hits);
    CountedField(g0, g1, hits);
    assert MineCells(g1) == Hits(draws[..used], side) && |MineCells(g1)| == placed;
  }

  /** The board `GenerateField` installs: empty, then mined, then counted. */
  method BuildField(side: nat, totalBombs: nat, draws: seq<int>) returns (board: array2<int>)
    requires Draws(draws, side)
    ensures fresh(board) && NewField(board, side, totalBombs, draws)
  {
    board := GenerateEmptyFields(side);
    var placed, used := PlaceMines(board, totalBombs, draws);
    ghost var placedGrid := Snap(board);
    assert forall i, j :: 0 <= i < |placedGrid| && 0 <= j < Width(placedGrid) ==>
      placedGrid[i][j] == if (i, j) in Hits(draws[..used], side) then 19 else 10 by {
      forall i, j | 0 <= i < |placedGrid| && 0 <= j < Width(placedGrid)
        ensures placedGrid[i][j] == if (i, j) in Hits(draws[..used], side) then 19 else 10
      {
        assert placedGrid[i][j] == board[i, j];
      }
    }
    MinesPlaced(placedGrid, Hits(draws[..used], side));
    BoardKeeper.IncrementNeighbours(board);
    DrawnField(placedGrid, Snap(board), side, totalBombs, draws, used, placed);
  }

  /** The component's state: the field on show and the moves last proposed. */
  class AppState {
    var side: nat
    var fields: array2<int>
    var moves: seq<Coord>

    /** The state at start: an empty field, then generation. */
    constructor(side: nat, totalBombs: nat, draws: seq<int>)
      requires Draws(draws, side)
      ensures this.side == side && moves == []
      ensures fields.Length0 == side && fields.Length1 == side && Consistent(Snap(fields))
      ensures fresh(fields) && NewField(fields, side, totalBombs, draws)
    {
      this.side := side;
      moves := [];
      new;
      GenerateField(totalBombs, draws);
    }

    /**
     * A new field: `totalBombs` mines on cells the draws name (fewer when
     * the draws run out), every cell Hidden, and every digit counting the
     * mines around it.
     */
    method GenerateField(totalBombs: nat, draws: seq<int>)
      requires Draws(draws, side)
      modifies this
      ensures side == old(side) && moves == old(moves) && fresh(fields)
      ensures NewField(fields, side, totalBombs, draws)
    {
      fields := BuildField(side, totalBombs, draws);
    }

    /**
     * A left click on the cell (row, col), applied to a copy of the field.
     * The copy replaces the field only when the click opened something, so
     * a click on a Revealed or Flagged cell keeps the very same field.
     */
    method HandleCellClick(row: int, col: int) returns (boom: bool)
      requires 0 <= row < fields.Length0 && 0 <= col < fields.Length1
      modifies this
      ensures side == old(side) && moves == old(moves)
      ensures !IsHidden(old(fields[row, col])) ==> fields == old(fields) && !boom
      ensures IsHidden(old(fields[row, col])) ==>
        fresh(fields) && fields.Length0 == old(fields.Length0) && fields.Length1 == old(fields.Length1) &&
        RevealsOnly(old(Snap(fields)), Snap(fields)) && !IsHidden(fields[row, col]) &&
        (boom <==> IsMine(old(fields[row, col])))
      ensures Clicked(old(Snap(fields)), Snap(fields), (row, col))
      ensures Consistent(old(Snap(fields))) ==> Consistent(Snap(fields))
    {
      var newFields := CopyBoard(fields);
      var updated;
      updated, boom := BoardKeeper.HandleCellClick(newFields, row, col);
      ClickOpens(old(Snap(fields)), Snap(newFields), (row, col));
      if updated {
        fields := newFields;
      }
    }

    /** A right click on the cell (row, col), applied to a copy of the field that then replaces it. */
    method HandleCellRightClick(row: int, col: int)
      requires 0 <= row < fields.Length0 && 0 <= col < fields.Length1
      modifies this
      ensures side == old(side) && moves == old(moves) && fresh(fields)
      ensures Snap(fields) == Set(old(Snap(fields)), (row, col), ToggleFlagValue(old(fields[row, col])))
      ensures Consistent(old(Snap(fields))) ==> Consistent(Snap(fields))
    {
      var newFields := CopyBoard(fields);
      BoardKeeper.HandleCellRightClick(newFields, row, col);
      fields := newFields;
    }

    /**
     * Asks the solver and keeps each proposed move once. `rule` is
     * `AsWritten` for the program as it stands and `FlagsUnknown` for the
     * corrected solver. Every move is a Hidden cell next to a cell whose
     * digit the solver read; while the field is consistent and every mine is
     * a cell the rule treats as unknown, no move is a mine. On a field
     * without flags both rules give the same moves.
     */
    method HandleNextStep(rule: Rule)
      modifies this
      ensures side == old(side) && fields == old(fields)
      ensures moves == UniqueMoves(NextStep(Snap(fields), rule))
      ensures forall a, b :: 0 <= a < b < |moves| ==> moves[a] != moves[b]
      ensures forall m :: m in moves ==>
        InGrid(Snap(fields), m) && IsHidden(At(Snap(fields), m)) && NextToInformant(Snap(fields), m)
      ensures Consistent(Snap(fields)) && MinesUnknown(Snap(fields), rule) ==>
        forall m :: m in moves ==> !IsMine(At(Snap(fields), m))
      ensures NoFlags(Snap(fields)) ==> moves == UniqueMoves(NextStep(Snap(fields), FlagsUnknown))
    {
      var nextStep := GetNextStep(fields, rule);
      moves := UniqueMoves(nextStep);
      UniqueMovesDistinct(nextStep);
      UniqueMovesSameCells(nextStep);
      NextStepJustified(Snap(fields), rule);
      if Consistent(Snap(fields)) && MinesUnknown(Snap(fields), rule) {
        NextStepSound(Snap(fields), rule);
      }
      if NoFlags(Snap(fields)) {
        NoFlagsSameMoves(Snap(fields));
      }
    }
  }

  /** A new board with the same cells: `fields.map(row => row.map(cell => cell))`. */
  method CopyBoard(a: array2<int>) returns (b: array2<int>)
    ensures fresh(b) && b.Length0 == a.Length0 && b.Length1 == a.Length1 && Snap(b) == Snap(a)
  {
    b := new int[a.Length0, a.Length1]((i, j) reads a =>
      if 0 <= i < a.Length0 && 0 <= j < a.Length1 then a[i, j] else 0);
    SnapIs(b, Snap(a));
  }

  /** The first index holding `x`, or -1 (`findIndex`). */
  function FindIndex(s: seq<Coord>, x: Coord): (r: int)
    ensures -1 <= r < |s|
    ensures r == -1 <==> x !in s
    ensures r >= 0 ==> s[r] == x && forall k :: 0 <= k < r ==> s[k] != x
  {
    if s == [] then -1
    else if s[0] == x then 0
    else
      var r := FindIndex(s[1..], x);
      if r == -1 then -1 else r + 1
  }

  /** The entries of `s[..n]` that sit at their first index in `s`. */
  function UniqueUpTo(s: seq<Coord>, n: nat): seq<Coord>
    requires n <= |s|
  {
    if n == 0 then []
    else UniqueUpTo(s, n - 1) + (if FindIndex(s, s[n - 1]) == n - 1 then [s[n - 1]] else [])
  }

  /** The moves kept by `handleNextStep`: each entry at its first occurrence, in order. */
  function UniqueMoves(s: seq<Coord>): seq<Coord>
  {
    UniqueUpTo(s, |s|)
  }

  lemma {:induction false} UniqueUpToCells(s: seq<Coord>, n: nat)
    requires n <= |s|
    ensures forall x :: x in UniqueUpTo(s, n) <==> x in s[..n]
  {
    if n > 0 {
      UniqueUpToCells(s, n - 1);
      assert s[..n] == s[..n - 1] + [s[n - 1]];
      var i := FindIndex(s, s[n - 1]);
      if i != n - 1 {
        assert s[i] == s[n - 1] && i < n - 1;
        assert s[..n - 1][i] == s[n - 1];
      }
    }
  }

  lemma {:induction false} UniqueUpToDistinct(s: seq<Coord>, n: nat)
    requires n <= |s|
    ensures forall a, b :: 0 <= a < b < |UniqueUpTo(s, n)| ==> UniqueUpTo(s, n)[a] != UniqueUpTo(s, n)[b]
  {
    if n > 0 {
      UniqueUpToDistinct(s, n - 1);
      UniqueUpToCells(s, n - 1);
      var x := s[n - 1];
      var u := UniqueUpTo(s, n - 1);
      if FindIndex(s, x) == n - 1 {
        assert x !in s[..n - 1];
        assert forall a :: 0 <= a < |u| ==> u[a] != x;
        assert UniqueUpTo(s, n) == u + [x];
      }
    }
  }

  /** The kept moves are the proposed cells, each once. */
  lemma UniqueMovesSameCells(s: seq<Coord>)
    ensures forall x :: x in UniqueMoves(s) <==> x in s
  {
    UniqueUpToCells(s, |s|);
    assert s[..|s|] == s;
  }

  lemma UniqueMovesDistinct(s: seq<Coord>)
    ensures forall a, b :: 0 <= a < b < |UniqueMoves(s)| ==> UniqueMoves(s)[a] != UniqueMoves(s)[b]
  {
    UniqueUpToDistinct(s, |s|);
  }

  lemma {:induction false} UniqueUpToOrdered(s: seq<Coord>, n: nat)
    requires n <= |s|
    ensures forall a :: 0 <= a < |UniqueUpTo(s, n)| ==> 0 <= FindIndex(s, UniqueUpTo(s, n)[a]) < n
    ensures forall a, b :: 0 <= a < b < |UniqueUpTo(s, n)| ==>
      FindIndex(s, UniqueUpTo(s, n)[a]) < FindIndex(s, UniqueUpTo(s, n)[b])
  {
    if n > 0 {
      UniqueUpToOrdered(s, n - 1);
      var u := UniqueUpTo(s, n - 1);
      var x := s[n - 1];
      if FindIndex(s, x) == n - 1 {
        assert UniqueUpTo(s, n) == u + [x];
      }
    }
  }

  /** The kept moves come in the order of their first occurrences. */
  lemma UniqueMovesOrdered(s: seq<Coord>)
    ensures forall a, b :: 0 <= a < b < |UniqueMoves(s)| ==>
      FindIndex(s, UniqueMoves(s)[a]) < FindIndex(s, UniqueMoves(s)[b])
  {
    UniqueUpToOrdered(s, |s|);
  }

  lemma {:induction false} UniqueUpToKeepsDistinct(s: seq<Coord>, n: nat)
    requires n <= |s|
    requires forall a, b :: 0 <= a < b < |s| ==> s[a] != s[b]
    ensures UniqueUpTo(s, n) == s[..n]
  {
    if n > 0 {
      UniqueUpToKeepsDistinct(s, n - 1);
      assert s[..n] == s[..n - 1] + [s[n - 1]];
      assert FindIndex(s, s[n - 1]) == n - 1;
    }
  }

  /** A list without repeats is kept as it is. */
  lemma UniqueMovesKeepsDistinct(s: seq<Coord>)
    requires forall a, b :: 0 <= a < b < |s| ==> s[a] != s[b]
    ensures UniqueMoves(s) == s
  {
    UniqueUpToKeepsDistinct(s, |s|);
    assert s[..|s|] == s;
  }
}
