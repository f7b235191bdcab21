/**
 * Neighbouring-mine counts and the invariant that ties a neutral cell's digit
 * to them: the property generation establishes (the pass of
 * `incrementNeighbours` in src/modules/board/board-keeper.ts) and that the
 * solver relies on.
 */
module Mines {
  import opened CellKeeper
  import opened Grids

  predicate AllInGrid(g: Grid, ns: seq<Coord>)
  {
    forall q :: q in ns ==> InGrid(g, q)
  }

  /** How many of the cells `ns` hold a mine. */
  function CountMines(g: Grid, ns: seq<Coord>): (n: nat)
    requires IsRect(g) && AllInGrid(g, ns)
    ensures n <= |ns|
  {
    if ns == [] then 0
    else (if IsMine(At(g, ns[0])) then 1 else 0) + CountMines(g, ns[1..])
  }

  /** The number of mines around p. */
  function MineCount(g: Grid, p: Coord): (n: nat)
    requires IsRect(g)
    ensures n <= 8
  {
    NeighboursInGrid(g, p);
    NeighboursShape(|g|, Width(g), p.0, p.1);
    CountMines(g, NeighboursOf(g, p))
  }

  /** Every value lies in one of the three state bands. */
  predicate WellEncoded(g: Grid)
  {
    IsRect(g) &&
    forall i, j :: 0 <= i < |g| && 0 <= j < Width(g) ==> 10 <= g[i][j] <= 39
  }

  /** The board invariant: every neutral cell's digit is the number of mines around it. */
  predicate Consistent(g: Grid)
  {
    WellEncoded(g) &&
    forall i, j :: 0 <= i < |g| && 0 <= j < Width(g) && !IsMine(g[i][j]) ==>
      Digit(g[i][j]) == MineCount(g, (i, j))
  }

  /** Two boards of one shape with their mines in the same places. */
  predicate SameLayout(g0: Grid, g1: Grid)
  {
    IsRect(g0) && IsRect(g1) && |g0| == |g1| && Width(g0) == Width(g1) &&
    forall i, j :: 0 <= i < |g0| && 0 <= j < Width(g0) ==> IsMine(g0[i][j]) == IsMine(g1[i][j])
  }

  /** The same layout, and the same digit in every cell: only state bands differ. */
  predicate SameMines(g0: Grid, g1: Grid)
  {
    SameLayout(g0, g1) &&
    forall i, j :: 0 <= i < |g0| && 0 <= j < Width(g0) ==> Digit(g0[i][j]) == Digit(g1[i][j])
  }

  lemma {:induction false} CountMinesSame(g0: Grid, g1: Grid, ns: seq<Coord>)
    requires SameLayout(g0, g1) && AllInGrid(g0, ns)
    ensures CountMines(g0, ns) == CountMines(g1, ns)
  {
    if ns != [] {
      assert ns[0] in ns;
      assert IsMine(At(g0, ns[0])) == IsMine(At(g1, ns[0]));
      CountMinesSame(g0, g1, ns[1..]);
    }
  }

  /** Changing only state bands keeps a consistent board consistent. */
  lemma SameMinesConsistent(g0: Grid, g1: Grid)
    requires Consistent(g0) && SameMines(g0, g1) && WellEncoded(g1)
    ensures Consistent(g1)
  {
    forall i, j | 0 <= i < |g1| && 0 <= j < Width(g1) && !IsMine(g1[i][j])
      ensures Digit(g1[i][j]) == MineCount(g1, (i, j))
    {
      NeighboursInGrid(g0, (i, j));
      CountMinesSame(g0, g1, NeighboursOf(g0, (i, j)));
    }
  }

  /** Placing or lifting a flag changes no mine and no digit: the board stays consistent. */
  lemma FlagKeepsMines(g: Grid, p: Coord)
    requires Consistent(g) && InGrid(g, p)
    ensures SameMines(g, Set(g, p, ToggleFlagValue(At(g, p))))
    ensures Consistent(Set(g, p, ToggleFlagValue(At(g, p))))
  {
    var g1 := Set(g, p, ToggleFlagValue(At(g, p)));
    assert IsMine(At(g, p)) == IsMine(At(g1, p)) && Digit(At(g, p)) == Digit(At(g1, p));
    SameMinesConsistent(g, g1);
  }

  /** No mine among cells whose mine count is zero. */
  lemma {:induction false} CountZeroNoMine(g: Grid, ns: seq<Coord>)
    requires IsRect(g) && AllInGrid(g, ns) && CountMines(g, ns) == 0
    ensures forall q :: q in ns ==> !IsMine(At(g, q))
  {
    if ns != [] {
      CountZeroNoMine(g, ns[1..]);
    }
  }

  /** Every cell is a mine when the count reaches the number of cells. */
  lemma {:induction false} CountFullAllMines(g: Grid, ns: seq<Coord>)
    requires IsRect(g) && AllInGrid(g, ns) && CountMines(g, ns) == |ns|
    ensures forall q :: q in ns ==> IsMine(At(g, q))
  {
    if ns != [] {
      CountFullAllMines(g, ns[1..]);
    }
  }

  /** On a consistent board, a neutral cell with digit 0 has no mine around it. */
  lemma ZeroCellHasNoMineNeighbour(g: Grid, p: Coord, q: Coord)
    requires Consistent(g) && InGrid(g, p) && !IsMine(At(g, p)) && Digit(At(g, p)) == 0
    requires q in NeighboursOf(g, p)
    ensures InGrid(g, q) && !IsMine(At(g, q))
  {
    NeighboursInGrid(g, p);
    CountZeroNoMine(g, NeighboursOf(g, p));
  }

  // ---- The counting pass of generation ----

  /** p comes before q in row-major order. */
  predicate Before(p: Coord, q: Coord)
  {
    p.0 < q.0 || (p.0 == q.0 && p.1 < q.1)
  }

  /** How many of the cells `ns` that come before q hold a mine. */
  function CountBefore(g: Grid, ns: seq<Coord>, q: Coord): (n: nat)
    requires IsRect(g) && AllInGrid(g, ns)
    ensures n <= |ns|
  {
    if ns == [] then 0
    else (if Before(ns[0], q) && IsMine(At(g, ns[0])) then 1 else 0) + CountBefore(g, ns[1..], q)
  }

  /** Moving q one column on adds one exactly when the cell passed over is a listed mine. */
  lemma {:induction false} CountBeforeStep(g: Grid, ns: seq<Coord>, r: int, c: int)
    requires IsRect(g) && AllInGrid(g, ns)
    requires forall a, b :: 0 <= a < b < |ns| ==> ns[a] != ns[b]
    ensures CountBefore(g, ns, (r, c + 1)) ==
      CountBefore(g, ns, (r, c)) + if (r, c) in ns && IsMine(At(g, (r, c))) then 1 else 0
  {
    if ns != [] {
      assert ns[0] in ns;
      assert forall a, b :: 0 <= a < b < |ns[1..]| ==> ns[1..][a] != ns[1..][b] by {
        forall a, b | 0 <= a < b < |ns[1..]| ensures ns[1..][a] != ns[1..][b] {
          assert ns[1..][a] == ns[a + 1] && ns[1..][b] == ns[b + 1];
        }
      }
      CountBeforeStep(g, ns[1..], r, c);
      if ns[0] == (r, c) {
        assert (r, c) !in ns[1..] by {
          forall k | 0 <= k < |ns[1..]| ensures ns[1..][k] != (r, c) {
            assert ns[1..][k] == ns[k + 1];
          }
        }
      }
      assert (r, c) in ns <==> ns[0] == (r, c) || (r, c) in ns[1..];
    }
  }

  /** Past the last column of a row is the start of the next row. */
  lemma {:induction false} CountBeforeRowEnd(g: Grid, ns: seq<Coord>, r: int)
    requires IsRect(g) && AllInGrid(g, ns)
    ensures CountBefore(g, ns, (r, Width(g))) == CountBefore(g, ns, (r + 1, 0))
  {
    if ns != [] {
      assert ns[0] in ns;
      CountBeforeRowEnd(g, ns[1..], r);
    }
  }

  /** Before the first cell nothing is counted; past the last row everything is. */
  lemma {:induction false} CountBeforeEnds(g: Grid, ns: seq<Coord>)
    requires IsRect(g) && AllInGrid(g, ns)
    ensures CountBefore(g, ns, (0, 0)) == 0
    ensures CountBefore(g, ns, (|g|, 0)) == CountMines(g, ns)
  {
    if ns != [] {
      assert ns[0] in ns;
      CountBeforeEnds(g, ns[1..]);
    }
  }

  /** The value of cell p once the mines before q have been counted. */
  function PartialCount(g: Grid, p: Coord, q: Coord): int
    requires IsRect(g) && InGrid(g, p)
  {
    NeighboursInGrid(g, p);
    if IsMine(At(g, p)) then At(g, p) else At(g, p) + CountBefore(g, NeighboursOf(g, p), q)
  }

  /** Before the pass every cell holds its own value; after the last row, its final count. */
  lemma PartialCountEnds(g: Grid)
    requires IsRect(g)
    ensures forall i, j :: 0 <= i < |g| && 0 <= j < Width(g) ==> PartialCount(g, (i, j), (0, 0)) == g[i][j]
    ensures forall i, j :: 0 <= i < |g| && 0 <= j < Width(g) ==>
      PartialCount(g, (i, j), (|g|, 0)) == if IsMine(g[i][j]) then g[i][j] else g[i][j] + MineCount(g, (i, j))
  {
    forall i, j | 0 <= i < |g| && 0 <= j < Width(g)
      ensures PartialCount(g, (i, j), (0, 0)) == g[i][j]
      ensures PartialCount(g, (i, j), (|g|, 0)) == if IsMine(g[i][j]) then g[i][j] else g[i][j] + MineCount(g, (i, j))
    {
      NeighboursInGrid(g, (i, j));
      CountBeforeEnds(g, NeighboursOf(g, (i, j)));
    }
  }

  lemma PartialCountRowEnd(g: Grid, row: int)
    requires IsRect(g)
    ensures forall i, j :: 0 <= i < |g| && 0 <= j < Width(g) ==>
      PartialCount(g, (i, j), (row, Width(g))) == PartialCount(g, (i, j), (row + 1, 0))
  {
    forall i, j | 0 <= i < |g| && 0 <= j < Width(g)
      ensures PartialCount(g, (i, j), (row, Width(g))) == PartialCount(g, (i, j), (row + 1, 0))
    {
      NeighboursInGrid(g, (i, j));
      CountBeforeRowEnd(g, NeighboursOf(g, (i, j)), row);
    }
  }

  /** g1 is g0 with every neutral cell raised by the number of mines around it. */
  predicate Counted(g0: Grid, g1: Grid)
  {
    IsRect(g0) && IsRect(g1) && |g0| == |g1| && Width(g0) == Width(g1) &&
    forall i, j :: 0 <= i < |g0| && 0 <= j < Width(g0) ==>
      g1[i][j] == if IsMine(g0[i][j]) then g0[i][j] else g0[i][j] + MineCount(g0, (i, j))
  }

  /** Cells that are mines or carry digit 0, in one of the three bands: what mine placement leaves. */
  predicate Uncounted(g: Grid)
  {
    IsRect(g) &&
    forall i, j :: 0 <= i < |g| && 0 <= j < Width(g) ==>
      10 <= g[i][j] <= 39 && (g[i][j] % 10 == 0 || g[i][j] % 10 == 9)
  }

  /**
   * Counting a board of mines and zeros makes it consistent, keeps the
   * mines where they were and every cell in its band.
   */
  lemma CountedConsistent(g0: Grid, g1: Grid)
    requires Uncounted(g0) && Counted(g0, g1)
    ensures SameLayout(g0, g1) && Consistent(g1)
    ensures forall i, j :: 0 <= i < |g0| && 0 <= j < Width(g0) ==>
      GetCellInfo(g1[i][j]).state == GetCellInfo(g0[i][j]).state
  {
    forall i, j | 0 <= i < |g0| && 0 <= j < Width(g0)
      ensures IsMine(g0[i][j]) == IsMine(g1[i][j]) && 10 <= g1[i][j] <= 39
      ensures GetCellInfo(g1[i][j]).state == GetCellInfo(g0[i][j]).state
      ensures !IsMine(g1[i][j]) ==> Digit(g1[i][j]) == MineCount(g0, (i, j))
    {
      if !IsMine(g0[i][j]) {
        DigitAfterCount(g0[i][j], MineCount(g0, (i, j)));
      }
    }
    forall i, j | 0 <= i < |g1| && 0 <= j < Width(g1) && !IsMine(g1[i][j])
      ensures Digit(g1[i][j]) == MineCount(g1, (i, j))
    {
      NeighboursInGrid(g0, (i, j));
      CountMinesSame(g0, g1, NeighboursOf(g0, (i, j)));
    }
  }
}
