/**
 * The hint solver (`getNextStep` in src/modules/board/board-keeper.ts) as a
 * function on board values. The solver sweeps the board row by row; at every
 * non-Hidden (Revealed or Flagged) neutral cell with a non-zero digit it splits the neighbours into
 * cells already deduced to be mines and cells still closed, then
 *   - marks every closed neighbour as a mine when the closed cells are
 *     exactly the mines still missing, and
 *   - proposes every closed neighbour as a move when the deduced mines
 *     already account for the digit.
 * When a whole sweep proposes nothing it sweeps once more, keeping what it
 * deduced.
 *
 * `Rule` selects which neighbours count as closed: `AsWritten` is
 * `getNextStep`'s test (Hidden cells only, so a Flagged cell is taken to be safe);
 * `FlagsUnknown` also counts Flagged cells as closed and proposes only the
 * Hidden ones. `AsWrittenProposesMine` exhibits a board on which `getNextStep`'s
 * rule proposes a mine; `NextStepSound` proves that the corrected rule never
 * does on a consistent board where no mine is revealed.
 */
module Solver {
  import opened CellKeeper
  import opened Grids
  import opened Mines

  datatype Rule = AsWritten | FlagsUnknown

  /** What the solver has gathered so far: the cells it deduced to be mines, and its proposals. */
  datatype Knowledge = Knowledge(bombs: set<Coord>, moves: seq<Coord>)

  const Nothing := Knowledge({}, [])

  /** A neighbour whose content the rule treats as not yet known. */
  predicate Unknown(rule: Rule, v: int)
  {
    IsHidden(v) || (rule == FlagsUnknown && IsFlagged(v))
  }

  /** A cell whose digit the solver reads: not Hidden, not a mine, digit other than 0. */
  predicate Informs(v: int)
  {
    !IsHidden(v) && !IsMine(v) && Digit(v) != 0
  }

  /** The cells of `ns` already deduced to be mines, in order. */
  function KnownBombs(ns: seq<Coord>, bombs: set<Coord>): (r: seq<Coord>)
    ensures |r| <= |ns| && forall q :: q in r ==> q in ns
  {
    if ns == [] then []
    else KnownBombs(ns[..|ns| - 1], bombs) + (if ns[|ns| - 1] in bombs then [ns[|ns| - 1]] else [])
  }

  /** The cells of `ns` not deduced to be mines whose content the rule treats as unknown, in order. */
  function ClosedOnes(g: Grid, ns: seq<Coord>, bombs: set<Coord>, rule: Rule): (r: seq<Coord>)
    requires IsRect(g) && AllInGrid(g, ns)
    ensures |r| <= |ns| && AllInGrid(g, r)
  {
    if ns == [] then []
    else
      var q := ns[|ns| - 1];
      ClosedOnes(g, ns[..|ns| - 1], bombs, rule) + (if q !in bombs && Unknown(rule, At(g, q)) then [q] else [])
  }

  /** The Hidden cells of `ns`, in order. */
  function HiddenOnes(g: Grid, ns: seq<Coord>): (r: seq<Coord>)
    requires IsRect(g) && AllInGrid(g, ns)
    ensures |r| <= |ns|
  {
    if ns == [] then []
    else HiddenOnes(g, ns[..|ns| - 1]) + (if IsHidden(At(g, ns[|ns| - 1])) then [ns[|ns| - 1]] else [])
  }

  /** The cells proposed when the closed neighbours are all safe: `getNextStep` proposes them all. */
  function Proposals(g: Grid, closed: seq<Coord>, rule: Rule): (r: seq<Coord>)
    requires IsRect(g) && AllInGrid(g, closed)
    ensures |r| <= |closed|
  {
    if rule == AsWritten then closed else HiddenOnes(g, closed)
  }

  lemma {:induction false} KnownBombsMembers(ns: seq<Coord>, bombs: set<Coord>)
    ensures forall q :: q in KnownBombs(ns, bombs) <==> q in ns && q in bombs
  {
    if ns != [] {
      KnownBombsMembers(ns[..|ns| - 1], bombs);
      assert ns == ns[..|ns| - 1] + [ns[|ns| - 1]];
    }
  }

  lemma {:induction false} ClosedOnesMembers(g: Grid, ns: seq<Coord>, bombs: set<Coord>, rule: Rule)
    requires IsRect(g) && AllInGrid(g, ns)
    ensures forall q :: q in ClosedOnes(g, ns, bombs, rule) <==> q in ns && q !in bombs && Unknown(rule, At(g, q))
  {
    if ns != [] {
      ClosedOnesMembers(g, ns[..|ns| - 1], bombs, rule);
      assert ns == ns[..|ns| - 1] + [ns[|ns| - 1]];
    }
  }

  lemma {:induction false} HiddenOnesMembers(g: Grid, ns: seq<Coord>)
    requires IsRect(g) && AllInGrid(g, ns)
    ensures forall q :: q in HiddenOnes(g, ns) <==> q in ns && IsHidden(At(g, q))
  {
    if ns != [] {
      HiddenOnesMembers(g, ns[..|ns| - 1]);
      assert ns == ns[..|ns| - 1] + [ns[|ns| - 1]];
    }
  }

  /** Proposals are closed cells, and include every Hidden one; under the corrected rule they are all Hidden. */
  lemma ProposalsMembers(g: Grid, closed: seq<Coord>, rule: Rule)
    requires IsRect(g) && AllInGrid(g, closed)
    ensures forall q :: q in Proposals(g, closed, rule) ==> q in closed
    ensures forall q :: q in closed && IsHidden(At(g, q)) ==> q in Proposals(g, closed, rule)
    ensures rule == FlagsUnknown ==> forall q :: q in Proposals(g, closed, rule) ==> IsHidden(At(g, q))
  {
    HiddenOnesMembers(g, closed);
  }

  /** One cell of the sweep. */
  function VisitCell(g: Grid, k: Knowledge, p: Coord, rule: Rule): (r: Knowledge)
    requires IsRect(g) && InGrid(g, p)
  {
    if !Informs(At(g, p)) then k
    else
      NeighboursInGrid(g, p);
      var ns := NeighboursOf(g, p);
      var digit := Digit(At(g, p));
      var bombNeighbours := KnownBombs(ns, k.bombs);
      var closed := ClosedOnes(g, ns, k.bombs, rule);
      var bombs := if |closed| == digit - |bombNeighbours| then k.bombs + (set q | q in closed) else k.bombs;
      var moves := if |bombNeighbours| == digit then k.moves + Proposals(g, closed, rule) else k.moves;
      Knowledge(bombs, moves)
  }

  /**
   * The sweep up to the cell (row, col): every row above `row` from left to
   * right, then the first `col` cells of row `row`.
   */
  function Scan(g: Grid, k: Knowledge, row: int, col: int, rule: Rule): (r: Knowledge)
    requires IsRect(g) && 0 <= row <= |g| && 0 <= col <= Width(g) && (row == |g| ==> col == 0)
    decreases row, col
  {
    if col > 0 then VisitCell(g, Scan(g, k, row, col - 1, rule), (row, col - 1), rule)
    else if row > 0 then Scan(g, k, row - 1, Width(g), rule)
    else k
  }

  /** One sweep of the whole board. */
  function Sweep(g: Grid, k: Knowledge, rule: Rule): (r: Knowledge)
    requires IsRect(g)
  {
    Scan(g, k, |g|, 0, rule)
  }

  /** The solver's answer: the first sweep's proposals, or the second sweep's when the first had none. */
  function NextStep(g: Grid, rule: Rule): seq<Coord>
    requires IsRect(g)
  {
    var first := Sweep(g, Nothing, rule);
    if |first.moves| == 0 then Sweep(g, first, rule).moves else first.moves
  }

  /** Properties of what the solver gathered that every visit keeps. */
  datatype Invariant = IsSound | IsJustified | Extends(start: Knowledge)

  /** `k` has the property `inv`. */
  predicate Holds(g: Grid, inv: Invariant, k: Knowledge)
  {
    match inv
    case IsSound => Sound(g, k)
    case IsJustified => Justified(g, k)
    case Extends(start) => start.bombs <= k.bombs && start.moves <= k.moves
  }

  /** `inv` is a property of what the solver gathered that every visit of a cell keeps. */
  ghost predicate KeptByVisits(g: Grid, rule: Rule, inv: Invariant)
    requires IsRect(g)
  {
    forall k, p {:trigger VisitCell(g, k, p, rule)} :: Holds(g, inv, k) && InGrid(g, p) ==> Holds(g, inv, VisitCell(g, k, p, rule))
  }

  /** One step of the sweep: the cell before (row, col) is visited last. */
  lemma ScanStep(g: Grid, k: Knowledge, row: int, col: int, rule: Rule)
    requires IsRect(g) && 0 <= row <= |g| && 0 <= col <= Width(g) && (row == |g| ==> col == 0)
    ensures col > 0 ==> row < |g| && InGrid(g, (row, col - 1))
    ensures col > 0 ==> Scan(g, k, row, col, rule) == VisitCell(g, Scan(g, k, row, col - 1, rule), (row, col - 1), rule)
    ensures col == 0 && row > 0 ==> Scan(g, k, row, col, rule) == Scan(g, k, row - 1, Width(g), rule)
    ensures col == 0 && row == 0 ==> Scan(g, k, row, col, rule) == k
  {
  }

  /** A property every visit keeps holds after any part of the sweep. */
  lemma {:induction false} ScanKeeps(g: Grid, k: Knowledge, row: int, col: int, rule: Rule, inv: Invariant)
    requires IsRect(g) && 0 <= row <= |g| && 0 <= col <= Width(g) && (row == |g| ==> col == 0)
    requires KeptByVisits(g, rule, inv) && Holds(g, inv, k)
    ensures Holds(g, inv, Scan(g, k, row, col, rule))
    decreases row, col
  {
    ScanStep(g, k, row, col, rule);
    if col > 0 {
      ScanKeeps(g, k, row, col - 1, rule, inv);
    } else if row > 0 {
      ScanKeeps(g, k, row - 1, Width(g), rule, inv);
    }
  }

  /** A property every visit keeps, and that holds at the start, holds after both sweeps. */
  lemma SweepsKeep(g: Grid, rule: Rule, inv: Invariant)
    requires IsRect(g) && KeptByVisits(g, rule, inv) && Holds(g, inv, Nothing)
    ensures Holds(g, inv, Sweep(g, Nothing, rule)) && Holds(g, inv, Sweep(g, Sweep(g, Nothing, rule), rule))
  {
    ScanKeeps(g, Nothing, |g|, 0, rule, inv);
    ScanKeeps(g, Sweep(g, Nothing, rule), |g|, 0, rule, inv);
  }

  /** A sweep only adds to the mine set and only appends moves. */
  lemma SweepGrows(g: Grid, k: Knowledge, rule: Rule)
    requires IsRect(g)
    ensures k.bombs <= Sweep(g, k, rule).bombs && k.moves <= Sweep(g, k, rule).moves
  {
    var inv := Extends(k);
    forall k', p | Holds(g, inv, k') && InGrid(g, p)
      ensures Holds(g, inv, VisitCell(g, k', p, rule))
    {
    }
    ScanKeeps(g, k, |g|, 0, rule, inv);
  }

  /** Classifying one more neighbour extends each list by at most that neighbour. */
  lemma ClassifyStep(g: Grid, ns: seq<Coord>, t: int, bombs: set<Coord>, rule: Rule)
    requires IsRect(g) && AllInGrid(g, ns) && 0 <= t < |ns|
    ensures KnownBombs(ns[..t + 1], bombs) ==
      KnownBombs(ns[..t], bombs) + (if ns[t] in bombs then [ns[t]] else [])
    ensures ClosedOnes(g, ns[..t + 1], bombs, rule) ==
      ClosedOnes(g, ns[..t], bombs, rule) + (if ns[t] !in bombs && Unknown(rule, At(g, ns[t])) then [ns[t]] else [])
    ensures Proposals(g, ClosedOnes(g, ns[..t + 1], bombs, rule), rule) ==
      Proposals(g, ClosedOnes(g, ns[..t], bombs, rule), rule) +
      (if ns[t] !in bombs && IsHidden(At(g, ns[t])) then [ns[t]] else [])
  {
    assert ns[..t + 1][..t] == ns[..t];
    assert ns[t] in ns;
    var c := ClosedOnes(g, ns[..t], bombs, rule);
    if ns[t] !in bombs && Unknown(rule, At(g, ns[t])) {
      var c' := c + [ns[t]];
      assert ClosedOnes(g, ns[..t + 1], bombs, rule) == c';
      assert c'[..|c'| - 1] == c && c'[|c'| - 1] == ns[t];
      if rule == FlagsUnknown {
        assert HiddenOnes(g, c') == HiddenOnes(g, c) + (if IsHidden(At(g, ns[t])) then [ns[t]] else []);
      }
    } else {
      assert ClosedOnes(g, ns[..t + 1], bombs, rule) == c;
      assert !(ns[t] !in bombs && IsHidden(At(g, ns[t])));
    }
  }

  /** Counting over a concatenation. */
  lemma {:induction false} CountMinesAppend(g: Grid, a: seq<Coord>, b: seq<Coord>)
    requires IsRect(g) && AllInGrid(g, a) && AllInGrid(g, b)
    ensures AllInGrid(g, a + b) && CountMines(g, a + b) == CountMines(g, a) + CountMines(g, b)
  {
    if a == [] {
      assert a + b == b;
    } else {
      assert (a + b)[1..] == a[1..] + b;
      CountMinesAppend(g, a[1..], b);
    }
  }

  /**
   * When every neighbour that is neither deduced nor closed is free of mines,
   * the mines around are those among the deduced ones plus those among the
   * closed ones.
   */
  lemma {:induction false} CountSplit(g: Grid, ns: seq<Coord>, bombs: set<Coord>, rule: Rule)
    requires IsRect(g) && AllInGrid(g, ns)
    requires forall q :: q in ns && q !in bombs && !Unknown(rule, At(g, q)) ==> !IsMine(At(g, q))
    ensures CountMines(g, ns) == CountMines(g, KnownBombs(ns, bombs)) + CountMines(g, ClosedOnes(g, ns, bombs, rule))
  {
    if ns != [] {
      var init, q := ns[..|ns| - 1], ns[|ns| - 1];
      assert ns == init + [q];
      CountSplit(g, init, bombs, rule);
      CountMinesAppend(g, init, [q]);
      CountMinesAppend(g, KnownBombs(init, bombs), if q in bombs then [q] else []);
      CountMinesAppend(g, ClosedOnes(g, init, bombs, rule), if q !in bombs && Unknown(rule, At(g, q)) then [q] else []);
    }
  }

  /** A list made of mines counts one per entry. */
  lemma {:induction false} CountAllMines(g: Grid, ns: seq<Coord>)
    requires IsRect(g) && AllInGrid(g, ns)
    requires forall q :: q in ns ==> IsMine(At(g, q))
    ensures CountMines(g, ns) == |ns|
  {
    if ns != [] {
      CountAllMines(g, ns[1..]);
    }
  }

  /** What the soundness of the solver assumes besides consistency: every mine is a cell the rule treats as unknown. */
  predicate MinesUnknown(g: Grid, rule: Rule)
  {
    IsRect(g) &&
    forall i, j :: 0 <= i < |g| && 0 <= j < Width(g) && IsMine(g[i][j]) ==> Unknown(rule, g[i][j])
  }

  /** Every deduced mine is a mine, and every proposal is a safe Hidden cell. */
  predicate Sound(g: Grid, k: Knowledge)
  {
    IsRect(g) &&
    (forall b :: b in k.bombs ==> InGrid(g, b) && IsMine(At(g, b))) &&
    (forall m :: m in k.moves ==> InGrid(g, m) && IsHidden(At(g, m)) && !IsMine(At(g, m)))
  }

  /**
   * The two deductions from one digit are sound: when the closed neighbours
   * are exactly as many as the mines still missing they are all mines, and
   * when the known mines already make up the digit none of them is a mine.
   */
  lemma Deductions(g: Grid, p: Coord, bombs: set<Coord>, rule: Rule)
    requires Consistent(g) && MinesUnknown(g, rule) && InGrid(g, p) && Informs(At(g, p))
    requires forall b :: b in bombs ==> InGrid(g, b) && IsMine(At(g, b))
    ensures AllInGrid(g, NeighboursOf(g, p))
    ensures |ClosedOnes(g, NeighboursOf(g, p), bombs, rule)| == Digit(At(g, p)) - |KnownBombs(NeighboursOf(g, p), bombs)| ==>
      forall q :: q in ClosedOnes(g, NeighboursOf(g, p), bombs, rule) ==> IsMine(At(g, q))
    ensures |KnownBombs(NeighboursOf(g, p), bombs)| == Digit(At(g, p)) ==>
      forall q :: q in ClosedOnes(g, NeighboursOf(g, p), bombs, rule) ==> !IsMine(At(g, q))
  {
    NeighboursInGrid(g, p);
    var ns := NeighboursOf(g, p);
    var bombNeighbours := KnownBombs(ns, bombs);
    var closed := ClosedOnes(g, ns, bombs, rule);
    assert Digit(At(g, p)) == CountMines(g, ns);
    forall q | q in ns && q !in bombs && !Unknown(rule, At(g, q))
      ensures !IsMine(At(g, q))
    {
    }
    KnownBombsMembers(ns, bombs);
    ClosedOnesMembers(g, ns, bombs, rule);
    CountSplit(g, ns, bombs, rule);
    CountAllMines(g, bombNeighbours);
    if |closed| == Digit(At(g, p)) - |bombNeighbours| {
      CountFullAllMines(g, closed);
    }
    if |bombNeighbours| == Digit(At(g, p)) {
      CountZeroNoMine(g, closed);
    }
  }

  lemma VisitSound(g: Grid, k: Knowledge, p: Coord, rule: Rule)
    requires Consistent(g) && MinesUnknown(g, rule) && Sound(g, k) && InGrid(g, p)
    ensures Sound(g, VisitCell(g, k, p, rule))
  {
    if Informs(At(g, p)) {
      Deductions(g, p, k.bombs, rule);
      var closed := ClosedOnes(g, NeighboursOf(g, p), k.bombs, rule);
      ClosedOnesMembers(g, NeighboursOf(g, p), k.bombs, rule);
      ProposalsMembers(g, closed, rule);
    }
  }

  /**
   * On a consistent board where every mine is a cell the rule treats as
   * unknown, every proposed move is a Hidden cell without a mine. For the
   * corrected rule this asks only that no mine is revealed, which holds
   * until the game is lost.
   */
  lemma NextStepSound(g: Grid, rule: Rule)
    requires Consistent(g) && MinesUnknown(g, rule)
    ensures forall m :: m in NextStep(g, rule) ==> InGrid(g, m) && IsHidden(At(g, m)) && !IsMine(At(g, m))
  {
    var inv := IsSound;
    forall k, p | Holds(g, inv, k) && InGrid(g, p)
      ensures Holds(g, inv, VisitCell(g, k, p, rule))
    {
      VisitSound(g, k, p, rule);
    }
    SweepsKeep(g, rule, inv);
  }

  /** Under the corrected rule the assumption is only that no mine is revealed. */
  lemma FlagsUnknownAssumes(g: Grid)
    requires WellEncoded(g)
    ensures MinesUnknown(g, FlagsUnknown) <==>
      forall i, j :: 0 <= i < |g| && 0 <= j < Width(g) && IsMine(g[i][j]) ==> !IsRevealed(g[i][j])
  {
  }

  /** m is a neighbour of a cell whose digit the solver reads. */
  predicate NextToInformant(g: Grid, m: Coord)
  {
    IsRect(g) &&
    exists a, b :: 0 <= a < |g| && 0 <= b < Width(g) && Informs(g[a][b]) && m in NeighboursOf(g, (a, b))
  }

  /** Every move is a Hidden cell next to a cell whose digit the solver read. */
  predicate Justified(g: Grid, k: Knowledge)
  {
    IsRect(g) &&
    forall m :: m in k.moves ==> InGrid(g, m) && IsHidden(At(g, m)) && NextToInformant(g, m)
  }

  /** The moves one cell adds are Hidden neighbours of it that were not deduced to be mines. */
  lemma VisitJustified(g: Grid, k: Knowledge, p: Coord, rule: Rule)
    requires Justified(g, k) && InGrid(g, p)
    ensures Justified(g, VisitCell(g, k, p, rule))
    ensures forall m :: m in VisitCell(g, k, p, rule).moves[|k.moves|..] ==>
      m !in k.bombs && m in NeighboursOf(g, p)
  {
    var r := VisitCell(g, k, p, rule);
    if Informs(At(g, p)) {
      NeighboursInGrid(g, p);
      var ns := NeighboursOf(g, p);
      var closed := ClosedOnes(g, ns, k.bombs, rule);
      ClosedOnesMembers(g, ns, k.bombs, rule);
      ProposalsMembers(g, closed, rule);
      var added := r.moves[|k.moves|..];
      assert added == [] || added == Proposals(g, closed, rule);
      forall m | m in added
        ensures m in closed && IsHidden(At(g, m))
      {
      }
      forall m | m in r.moves
        ensures InGrid(g, m) && IsHidden(At(g, m)) && NextToInformant(g, m)
      {
        if m !in k.moves {
          var t :| 0 <= t < |r.moves| && r.moves[t] == m;
          assert t >= |k.moves| && added[t - |k.moves|] == m;
          assert Informs(g[p.0][p.1]) && m in NeighboursOf(g, (p.0, p.1));
        }
      }
    }
  }

  /**
   * On any board, under either rule, every move is an in-bounds Hidden cell
   * next to a cell that is not Hidden, not a mine and has a digit above 0.
   */
  lemma NextStepJustified(g: Grid, rule: Rule)
    requires IsRect(g)
    ensures forall m :: m in NextStep(g, rule) ==> InGrid(g, m) && IsHidden(At(g, m)) && NextToInformant(g, m)
  {
    var inv := IsJustified;
    forall k, p | Holds(g, inv, k) && InGrid(g, p)
      ensures Holds(g, inv, VisitCell(g, k, p, rule))
    {
      VisitJustified(g, k, p, rule);
    }
    SweepsKeep(g, rule, inv);
  }

  /** No cell carries a flag. */
  predicate NoFlags(g: Grid)
  {
    IsRect(g) && forall i, j :: 0 <= i < |g| && 0 <= j < Width(g) ==> !IsFlagged(g[i][j])
  }

  lemma {:induction false} ClosedOnesAgree(g: Grid, ns: seq<Coord>, bombs: set<Coord>)
    requires NoFlags(g) && AllInGrid(g, ns)
    ensures ClosedOnes(g, ns, bombs, AsWritten) == ClosedOnes(g, ns, bombs, FlagsUnknown)
  {
    if ns != [] {
      ClosedOnesAgree(g, ns[..|ns| - 1], bombs);
      assert ns[|ns| - 1] in ns;
    }
  }

  lemma {:induction false} HiddenOnesAll(g: Grid, ns: seq<Coord>)
    requires IsRect(g) && AllInGrid(g, ns)
    requires forall q :: q in ns ==> IsHidden(At(g, q))
    ensures HiddenOnes(g, ns) == ns
  {
    if ns != [] {
      HiddenOnesAll(g, ns[..|ns| - 1]);
      assert ns[|ns| - 1] in ns;
      assert ns == ns[..|ns| - 1] + [ns[|ns| - 1]];
    }
  }

  lemma VisitAgrees(g: Grid, k: Knowledge, p: Coord)
    requires NoFlags(g) && InGrid(g, p)
    ensures VisitCell(g, k, p, AsWritten) == VisitCell(g, k, p, FlagsUnknown)
  {
    if Informs(At(g, p)) {
      NeighboursInGrid(g, p);
      var ns := NeighboursOf(g, p);
      ClosedOnesAgree(g, ns, k.bombs);
      ClosedOnesMembers(g, ns, k.bombs, AsWritten);
      HiddenOnesAll(g, ClosedOnes(g, ns, k.bombs, AsWritten));
    }
  }

  lemma {:induction false} ScanAgrees(g: Grid, k: Knowledge, row: int, col: int)
    requires NoFlags(g) && 0 <= row <= |g| && 0 <= col <= Width(g) && (row == |g| ==> col == 0)
    ensures Scan(g, k, row, col, AsWritten) == Scan(g, k, row, col, FlagsUnknown)
    decreases row, col
  {
    if col > 0 {
      ScanAgrees(g, k, row, col - 1);
      VisitAgrees(g, Scan(g, k, row, col - 1, AsWritten), (row, col - 1));
    } else if row > 0 {
      ScanAgrees(g, k, row - 1, Width(g));
    }
  }

  /** On a board without flags the correction changes nothing: both rules give the same moves. */
  lemma NoFlagsSameMoves(g: Grid)
    requires NoFlags(g)
    ensures NextStep(g, AsWritten) == NextStep(g, FlagsUnknown)
  {
    ScanAgrees(g, Nothing, |g|, 0);
    ScanAgrees(g, Sweep(g, Nothing, AsWritten), |g|, 0);
  }

  /** On a board of one row, a cell's neighbours are the cells to its left and right. */
  lemma OneRowNeighbours(w: int, col: int)
    requires 0 <= col < w
    ensures Neighbours(1, w, 0, col) ==
      (if col > 0 then [(0, col - 1)] else []) + (if col + 1 < w then [(0, col + 1)] else [])
  {
    assert NeighboursUpTo(1, w, 0, col, 1) == [];
    assert NeighboursUpTo(1, w, 0, col, 2) == [];
    assert NeighboursUpTo(1, w, 0, col, 3) == [];
    assert NeighboursUpTo(1, w, 0, col, 4) == if col > 0 then [(0, col - 1)] else [];
    assert NeighboursUpTo(1, w, 0, col, 5) == NeighboursUpTo(1, w, 0, col, 4);
    assert NeighboursUpTo(1, w, 0, col, 6) ==
      (if col > 0 then [(0, col - 1)] else []) + (if col + 1 < w then [(0, col + 1)] else []);
    assert NeighboursUpTo(1, w, 0, col, 7) == NeighboursUpTo(1, w, 0, col, 6);
    assert NeighboursUpTo(1, w, 0, col, 8) == NeighboursUpTo(1, w, 0, col, 6);
    assert NeighboursUpTo(1, w, 0, col, 9) == NeighboursUpTo(1, w, 0, col, 6);
  }

  /** The row flagged mine | revealed 1 | hidden 0 | revealed 1 | hidden mine. */
  const FlaggedMineRow: Grid := [[39, 21, 10, 21, 19]]

  /** Counting the mines of two cells. */
  lemma CountTwo(g: Grid, a: Coord, b: Coord)
    requires IsRect(g) && InGrid(g, a) && InGrid(g, b)
    ensures CountMines(g, [a, b]) == (if IsMine(At(g, a)) then 1 else 0) + (if IsMine(At(g, b)) then 1 else 0)
  {
    assert [a, b][1..] == [b];
    assert [b][1..] == [];
  }

  /** What each cell of the row holds. */
  lemma FlaggedMineRowCells()
    ensures IsRect(FlaggedMineRow) && |FlaggedMineRow| == 1 && Width(FlaggedMineRow) == 5
    ensures var r := FlaggedMineRow[0];
      IsFlagged(r[0]) && IsMine(r[0]) && IsRevealed(r[1]) && !IsMine(r[1]) && Digit(r[1]) == 1 &&
      IsHidden(r[2]) && !IsMine(r[2]) && Digit(r[2]) == 0 &&
      IsRevealed(r[3]) && !IsMine(r[3]) && Digit(r[3]) == 1 && IsHidden(r[4]) && IsMine(r[4])
  {
  }

  /** Each neutral cell of the row carries the number of mines beside it. */
  lemma FlaggedMineRowDigit(col: int)
    requires 1 <= col <= 3
    ensures IsRect(FlaggedMineRow) && Width(FlaggedMineRow) == 5
    ensures Digit(FlaggedMineRow[0][col]) == MineCount(FlaggedMineRow, (0, col))
  {
    var g := FlaggedMineRow;
    FlaggedMineRowCells();
    OneRowNeighbours(5, col);
    assert NeighboursOf(g, (0, col)) == [(0, col - 1), (0, col + 1)];
    CountTwo(g, (0, col - 1), (0, col + 1));
  }

  /** The row is a consistent board on which no mine is revealed. */
  lemma FlaggedMineRowConsistent()
    ensures Consistent(FlaggedMineRow) && MinesUnknown(FlaggedMineRow, FlagsUnknown)
  {
    var g := FlaggedMineRow;
    assert IsRect(g) && |g| == 1 && Width(g) == 5;
    assert WellEncoded(g);
    forall i, j | 0 <= i < |g| && 0 <= j < Width(g) && !IsMine(g[i][j])
      ensures Digit(g[i][j]) == MineCount(g, (i, j))
    {
      assert i == 0;
      if 1 <= j <= 3 {
        FlaggedMineRowDigit(j);
      }
    }
  }

  lemma FlaggedMineRowShape()
    ensures IsRect(FlaggedMineRow) && |FlaggedMineRow| == 1 && Width(FlaggedMineRow) == 5
    ensures NeighboursOf(FlaggedMineRow, (0, 1)) == [(0, 0), (0, 2)]
    ensures NeighboursOf(FlaggedMineRow, (0, 3)) == [(0, 2), (0, 4)]
  {
    OneRowNeighbours(5, 1);
    OneRowNeighbours(5, 3);
  }

  /** The known mines among two cells. */
  lemma KnownBombsTwo(a: Coord, b: Coord, bombs: set<Coord>)
    ensures KnownBombs([a, b], bombs) == (if a in bombs then [a] else []) + (if b in bombs then [b] else [])
  {
    assert [a, b][..1] == [a];
    assert [a][..0] == [];
  }

  lemma SingleMember(c: Coord)
    ensures (set q | q in [c]) == {c}
  {
    assert forall q :: q in [c] <==> q == c;
  }

  /** The closed cells among two cells. */
  lemma ClosedOnesTwo(g: Grid, a: Coord, b: Coord, bombs: set<Coord>, rule: Rule)
    requires IsRect(g) && InGrid(g, a) && InGrid(g, b)
    ensures ClosedOnes(g, [a, b], bombs, rule) ==
      (if a !in bombs && Unknown(rule, At(g, a)) then [a] else []) +
      (if b !in bombs && Unknown(rule, At(g, b)) then [b] else [])
  {
    assert [a, b][..1] == [a];
    assert [a][..0] == [];
  }

  /** The flagged mine and the hidden 0 at the start of a sweep of the row learn nothing. */
  lemma FlaggedMineRowQuiet(k: Knowledge, col: int, rule: Rule)
    requires col == 0 || col == 2 || col == 4
    ensures IsRect(FlaggedMineRow) && Width(FlaggedMineRow) == 5
    ensures VisitCell(FlaggedMineRow, k, (0, col), rule) == k
  {
    FlaggedMineRowCells();
  }

  /** Under `getNextStep`'s rule, the first 1 takes its flagged neighbour for safe and the hidden 0 for its mine. */
  lemma AsWrittenVisitFirst()
    ensures IsRect(FlaggedMineRow) && Width(FlaggedMineRow) == 5
    ensures VisitCell(FlaggedMineRow, Nothing, (0, 1), AsWritten) == Knowledge({(0, 2)}, [])
  {
    var g := FlaggedMineRow;
    FlaggedMineRowCells();
    FlaggedMineRowShape();
    KnownBombsTwo((0, 0), (0, 2), {});
    ClosedOnesTwo(g, (0, 0), (0, 2), {}, AsWritten);
    SingleMember((0, 2));
  }

  /** Then the second 1 counts the hidden 0 as its mine and proposes its other neighbour. */
  lemma AsWrittenVisitSecond()
    ensures IsRect(FlaggedMineRow) && Width(FlaggedMineRow) == 5
    ensures VisitCell(FlaggedMineRow, Knowledge({(0, 2)}, []), (0, 3), AsWritten) == Knowledge({(0, 2)}, [(0, 4)])
  {
    var g := FlaggedMineRow;
    FlaggedMineRowCells();
    FlaggedMineRowShape();
    KnownBombsTwo((0, 2), (0, 4), {(0, 2)});
    ClosedOnesTwo(g, (0, 2), (0, 4), {(0, 2)}, AsWritten);
  }

  /** Under `getNextStep`'s rule, the sweep deduces the hidden 0 is a mine by column 2. */
  lemma AsWrittenFirstOne()
    ensures IsRect(FlaggedMineRow) && Width(FlaggedMineRow) == 5
    ensures Scan(FlaggedMineRow, Nothing, 0, 2, AsWritten) == Knowledge({(0, 2)}, [])
  {
    FlaggedMineRowQuiet(Nothing, 0, AsWritten);
    AsWrittenVisitFirst();
  }

  /** And proposes the hidden mine by column 4. */
  lemma AsWrittenSecondOne()
    ensures IsRect(FlaggedMineRow) && Width(FlaggedMineRow) == 5
    ensures Scan(FlaggedMineRow, Nothing, 0, 4, AsWritten) == Knowledge({(0, 2)}, [(0, 4)])
  {
    AsWrittenFirstOne();
    FlaggedMineRowQuiet(Knowledge({(0, 2)}, []), 2, AsWritten);
    AsWrittenVisitSecond();
  }

  /**
   * `getNextStep`'s rule proposes a mine on `FlaggedMineRow`. The first 1 takes
   * its flagged neighbour for safe and deduces that the hidden 0 is a mine;
   * the second 1 then counts that cell as its mine and proposes its other
   * neighbour, which is the hidden mine.
   */
  lemma AsWrittenProposesMine()
    ensures (0, 4) in NextStep(FlaggedMineRow, AsWritten) && IsMine(At(FlaggedMineRow, (0, 4)))
  {
    var g := FlaggedMineRow;
    FlaggedMineRowCells();
    AsWrittenSecondOne();
    FlaggedMineRowQuiet(Knowledge({(0, 2)}, [(0, 4)]), 4, AsWritten);
    assert Scan(g, Nothing, 0, 5, AsWritten).moves == [(0, 4)];
    assert Sweep(g, Nothing, AsWritten).moves == [(0, 4)];
  }

  /** Under the corrected rule the first 1 cannot tell which of its two unknown neighbours is the mine. */
  lemma FlagsUnknownVisitFirst()
    ensures IsRect(FlaggedMineRow) && Width(FlaggedMineRow) == 5
    ensures VisitCell(FlaggedMineRow, Nothing, (0, 1), FlagsUnknown) == Nothing
  {
    var g := FlaggedMineRow;
    FlaggedMineRowCells();
    FlaggedMineRowShape();
    KnownBombsTwo((0, 0), (0, 2), {});
    ClosedOnesTwo(g, (0, 0), (0, 2), {}, FlagsUnknown);
  }

  /** Nor can the second. */
  lemma FlagsUnknownVisitSecond()
    ensures IsRect(FlaggedMineRow) && Width(FlaggedMineRow) == 5
    ensures VisitCell(FlaggedMineRow, Nothing, (0, 3), FlagsUnknown) == Nothing
  {
    var g := FlaggedMineRow;
    FlaggedMineRowCells();
    FlaggedMineRowShape();
    KnownBombsTwo((0, 2), (0, 4), {});
    ClosedOnesTwo(g, (0, 2), (0, 4), {}, FlagsUnknown);
  }

  /** So a sweep under the corrected rule learns nothing. */
  lemma FlagsUnknownSweep()
    ensures IsRect(FlaggedMineRow)
    ensures Sweep(FlaggedMineRow, Nothing, FlagsUnknown) == Nothing
  {
    var g := FlaggedMineRow;
    FlaggedMineRowCells();
    FlaggedMineRowQuiet(Nothing, 0, FlagsUnknown);
    FlagsUnknownVisitFirst();
    FlaggedMineRowQuiet(Nothing, 2, FlagsUnknown);
    FlagsUnknownVisitSecond();
    FlaggedMineRowQuiet(Nothing, 4, FlagsUnknown);
    assert Scan(g, Nothing, 0, 2, FlagsUnknown) == Nothing;
    assert Scan(g, Nothing, 0, 4, FlagsUnknown) == Nothing;
    assert Scan(g, Nothing, 0, 5, FlagsUnknown) == Nothing;
  }

  /** So the corrected rule proposes nothing on `FlaggedMineRow`. */
  lemma FlagsUnknownProposesNothing()
    ensures NextStep(FlaggedMineRow, FlagsUnknown) == []
  {
    FlagsUnknownSweep();
  }
}
