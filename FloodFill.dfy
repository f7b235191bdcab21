/**
 * What the recursive flood fill (`revealNeutralNeighbours` in
 * src/modules/board/board-keeper.ts) does to a board, stated on board
 * values: `Cascade(g0, g1, p)` relates the board before and after the
 * cascade started at p. The lemmas compose one step of `revealNeutralNeighbours`' loop
 * with the result of a recursive call, and draw the consequences the game
 * relies on.
 */
module FloodFill {
  import opened CellKeeper
  import opened Grids
  import opened Mines

  predicate SameShape(g0: Grid, g1: Grid)
  {
    IsRect(g0) && IsRect(g1) && |g0| == |g1| && Width(g0) == Width(g1)
  }

  /** A Hidden neutral cell with no neighbouring mine: the cells the cascade spreads through. */
  predicate IsBlank(v: int)
  {
    IsHidden(v) && !IsMine(v) && Digit(v) == 0
  }

  lemma BlankIsTen(v: int)
    ensures IsBlank(v) <==> v == 10
  {
  }

  /** g1 differs from g0 only by cells that were revealed. */
  predicate RevealsOnly(g0: Grid, g1: Grid)
  {
    SameShape(g0, g1) &&
    forall i, j :: 0 <= i < |g0| && 0 <= j < Width(g0) ==>
      g1[i][j] == g0[i][j] || g1[i][j] == RevealCell(g0[i][j])
  }

  /** Every neighbour of p has been through `revealCell`. */
  predicate NeighboursRevealed(g0: Grid, g1: Grid, p: Coord)
    requires SameShape(g0, g1)
  {
    forall q :: q in NeighboursOf(g0, p) ==> InGrid(g0, q) && At(g1, q) == RevealCell(At(g0, q))
  }

  /** Every blank cell that is no longer Hidden has no Hidden neighbour. */
  predicate ClosedUnder(g0: Grid, g1: Grid)
    requires SameShape(g0, g1)
  {
    forall i, j :: 0 <= i < |g0| && 0 <= j < Width(g0) && IsBlank(g0[i][j]) && !IsHidden(g1[i][j]) ==>
      forall q :: q in NeighboursOf(g0, (i, j)) ==> InGrid(g0, q) && !IsHidden(At(g1, q))
  }

  /**
   * A walk on the board: each cell is a neighbour of the one before it, and
   * every cell strictly between the two ends is a blank cell of g0 that g1
   * has opened. The cascade spreads along such walks.
   */
  ghost predicate Walk(g0: Grid, g1: Grid, path: seq<Coord>)
    requires SameShape(g0, g1)
  {
    BlankWalk(g0, path) &&
    forall k :: 0 < k < |path| - 1 ==> !IsHidden(At(g1, path[k]))
  }

  /** A path of neighbours of g whose cells strictly between its ends are blank cells of g. */
  predicate BlankWalk(g: Grid, path: seq<Coord>)
    requires IsRect(g)
  {
    |path| >= 2 &&
    (forall k :: 0 <= k < |path| - 1 ==> StepsOn(g, path, k)) &&
    (forall k :: 0 < k < |path| - 1 ==> InGrid(g, path[k]) && IsBlank(At(g, path[k])))
  }

  /** The cell after position k of the walk is a neighbour of the cell at k. */
  predicate StepsOn(g: Grid, path: seq<Coord>, k: int)
    requires 0 <= k < |path| - 1
  {
    path[k + 1] in NeighboursOf(g, path[k])
  }

  /** Every cell that was opened is the end of a walk from p through opened blank cells. */
  ghost predicate ReachedFrom(g0: Grid, g1: Grid, p: Coord)
    requires SameShape(g0, g1)
  {
    forall i, j :: OpenedCell(g0, g1, i, j) ==> ReachedBy(g0, g1, p, i, j)
  }

  /** Some walk from p ends at (i, j). */
  ghost predicate ReachedBy(g0: Grid, g1: Grid, p: Coord, i: int, j: int)
    requires SameShape(g0, g1)
  {
    exists path {:trigger Walk(g0, g1, path)} :: Walk(g0, g1, path) && path[0] == p && path[|path| - 1] == (i, j)
  }

  /** The cell at (i, j) was Hidden in g0 and is not Hidden in g1. */
  predicate OpenedCell(g0: Grid, g1: Grid, i: int, j: int)
    requires SameShape(g0, g1)
  {
    0 <= i < |g0| && 0 <= j < Width(g0) && IsHidden(g0[i][j]) && !IsHidden(g1[i][j])
  }

  /** The effect of the cascade from p: g1 is g0 with the region around p opened. */
  ghost predicate Cascade(g0: Grid, g1: Grid, p: Coord)
  {
    RevealsOnly(g0, g1) && NeighboursRevealed(g0, g1, p) && ClosedUnder(g0, g1) && ReachedFrom(g0, g1, p)
  }

  /** The state of the cascade after the first t neighbours of p. */
  ghost predicate Partial(g0: Grid, g1: Grid, p: Coord, t: nat)
  {
    RevealsOnly(g0, g1) && t <= |NeighboursOf(g0, p)| &&
    (forall s :: 0 <= s < t ==>
      InGrid(g0, NeighboursOf(g0, p)[s]) &&
      At(g1, NeighboursOf(g0, p)[s]) == RevealCell(At(g0, NeighboursOf(g0, p)[s]))) &&
    ClosedUnder(g0, g1) && ReachedFrom(g0, g1, p)
  }

  /** The cells still Hidden; the cascade shrinks this set at every recursive call. */
  function HiddenCells(g: Grid): set<Coord>
    requires IsRect(g)
  {
    set i, j | 0 <= i < |g| && 0 <= j < Width(g) && IsHidden(g[i][j]) :: (i, j)
  }

  lemma PartialStart(g0: Grid, p: Coord)
    requires IsRect(g0)
    ensures Partial(g0, g0, p, 0)
  {
  }

  lemma PartialDone(g0: Grid, g1: Grid, p: Coord)
    requires Partial(g0, g1, p, |NeighboursOf(g0, p)|)
    ensures Cascade(g0, g1, p)
  {
    var ns := NeighboursOf(g0, p);
    forall q | q in ns
      ensures InGrid(g0, q) && At(g1, q) == RevealCell(At(g0, q))
    {
      var s :| 0 <= s < |ns| && ns[s] == q;
    }
  }

  /** Opening a Hidden cell, and nothing else, removes it from the Hidden set. */
  lemma HiddenShrinks(g0: Grid, g1: Grid, n: Coord)
    requires RevealsOnly(g0, g1) && InGrid(g0, n) && IsHidden(At(g0, n)) && !IsHidden(At(g1, n))
    ensures HiddenCells(g1) < HiddenCells(g0)
  {
    assert n in HiddenCells(g0) - HiddenCells(g1);
  }

  /** What the three parts of `StepPlain` assume. */
  ghost predicate PlainStep(g0: Grid, g: Grid, p: Coord, t: nat)
  {
    Partial(g0, g, p, t) && t < |NeighboursOf(g0, p)| &&
    InGrid(g0, NeighboursOf(g0, p)[t]) && !IsBlank(At(g, NeighboursOf(g0, p)[t]))
  }

  lemma StepPlainReveals(g0: Grid, g: Grid, p: Coord, t: nat)
    requires PlainStep(g0, g, p, t)
    ensures RevealsOnly(g0, Opening(g0, g, p, t))
    ensures forall s :: 0 <= s < t + 1 ==>
      InGrid(g0, NeighboursOf(g0, p)[s]) &&
      At(Opening(g0, g, p, t), NeighboursOf(g0, p)[s]) == RevealCell(At(g0, NeighboursOf(g0, p)[s]))
  {
    var ns := NeighboursOf(g0, p);
    var g1 := Opening(g0, g, p, t);
    forall s | 0 <= s < t + 1
      ensures InGrid(g0, ns[s]) && At(g1, ns[s]) == RevealCell(At(g0, ns[s]))
    {
      RevealIdempotent(At(g0, ns[s]));
    }
    RevealIdempotent(At(g0, ns[t]));
  }

  lemma StepPlainClosed(g0: Grid, g: Grid, p: Coord, t: nat)
    requires PlainStep(g0, g, p, t)
    ensures ClosedUnder(g0, Opening(g0, g, p, t))
  {
    var g1 := Opening(g0, g, p, t);
    forall i, j | 0 <= i < |g0| && 0 <= j < Width(g0) && IsBlank(g0[i][j]) && !IsHidden(g1[i][j])
      ensures forall q :: q in NeighboursOf(g0, (i, j)) ==> InGrid(g0, q) && !IsHidden(At(g1, q))
    {
      NeighboursInGrid(g0, (i, j));
    }
  }

  lemma StepPlainReached(g0: Grid, g: Grid, p: Coord, t: nat)
    requires PlainStep(g0, g, p, t)
    ensures ReachedFrom(g0, Opening(g0, g, p, t), p)
  {
    var ns := NeighboursOf(g0, p);
    var n := ns[t];
    var g1 := Opening(g0, g, p, t);
    OpeningStaysOpen(g0, g, p, t);
    forall i, j | 0 <= i < |g0| && 0 <= j < Width(g0) && IsHidden(g0[i][j]) && !IsHidden(g1[i][j])
      ensures ReachedBy(g0, g1, p, i, j)
    {
      if (i, j) == n {
        assert Walk(g0, g1, [p, n]);
      } else {
        assert !IsHidden(g[i][j]);
        var path := PickWalk(g0, g, p, i, j);
        WalkStaysOpen(g0, g, g1, path);
      }
    }
  }

  /** Revealing the t-th neighbour closes no open cell. */
  lemma OpeningStaysOpen(g0: Grid, g: Grid, p: Coord, t: nat)
    requires IsRect(g) && SameShape(g0, g) && t < |NeighboursOf(g0, p)| && InGrid(g0, NeighboursOf(g0, p)[t])
    ensures StaysOpen(g, Opening(g0, g, p, t))
  {
  }

  /** A walk through cells that stay open remains a walk. */
  lemma WalkStaysOpen(g0: Grid, g: Grid, g2: Grid, path: seq<Coord>)
    requires SameShape(g0, g) && StaysOpen(g, g2) && Walk(g0, g, path)
    ensures SameShape(g0, g2) && Walk(g0, g2, path)
  {
    forall k | 0 < k < |path| - 1
      ensures InGrid(g0, path[k]) && IsBlank(At(g0, path[k])) && !IsHidden(At(g2, path[k]))
    {
      var c := path[k];
      assert !IsHidden(g[c.0][c.1]);
    }
  }

  /** A neighbour of p that is not blank: revealing it keeps the partial cascade. */
  lemma StepPlain(g0: Grid, g: Grid, p: Coord, t: nat)
    requires Partial(g0, g, p, t) && t < |NeighboursOf(g0, p)|
    requires InGrid(g, NeighboursOf(g0, p)[t]) && !IsBlank(At(g, NeighboursOf(g0, p)[t]))
    ensures Partial(g0, Set(g, NeighboursOf(g0, p)[t], RevealCell(At(g, NeighboursOf(g0, p)[t]))), p, t + 1)
  {
    StepPlainReveals(g0, g, p, t);
    StepPlainClosed(g0, g, p, t);
    StepPlainReached(g0, g, p, t);
  }

  /** The board after revealing the t-th neighbour n of p: the start of the recursive call from n. */
  function Opening(g0: Grid, g: Grid, p: Coord, t: nat): Grid
    requires IsRect(g) && SameShape(g0, g) && t < |NeighboursOf(g0, p)| && InGrid(g0, NeighboursOf(g0, p)[t])
  {
    Set(g, NeighboursOf(g0, p)[t], RevealCell(At(g, NeighboursOf(g0, p)[t])))
  }

  /** What the three parts of `StepBlank` assume. */
  ghost predicate BlankStep(g0: Grid, g: Grid, g2: Grid, p: Coord, t: nat)
  {
    Partial(g0, g, p, t) && t < |NeighboursOf(g0, p)| &&
    InGrid(g0, NeighboursOf(g0, p)[t]) && IsBlank(At(g, NeighboursOf(g0, p)[t])) &&
    Cascade(Opening(g0, g, p, t), g2, NeighboursOf(g0, p)[t])
  }

  lemma StepBlankReveals(g0: Grid, g: Grid, g2: Grid, p: Coord, t: nat)
    requires BlankStep(g0, g, g2, p, t)
    ensures RevealsOnly(g0, g2)
    ensures forall s :: 0 <= s < t + 1 ==>
      InGrid(g0, NeighboursOf(g0, p)[s]) &&
      At(g2, NeighboursOf(g0, p)[s]) == RevealCell(At(g0, NeighboursOf(g0, p)[s]))
  {
    var ns := NeighboursOf(g0, p);
    var n := ns[t];
    var g1 := Opening(g0, g, p, t);
    forall i, j | 0 <= i < |g0| && 0 <= j < Width(g0)
      ensures g2[i][j] == g0[i][j] || g2[i][j] == RevealCell(g0[i][j])
    {
      RevealIdempotent(g0[i][j]);
    }
    forall s | 0 <= s < t + 1
      ensures InGrid(g0, ns[s]) && At(g2, ns[s]) == RevealCell(At(g0, ns[s]))
    {
      RevealIdempotent(At(g0, ns[s]));
    }
  }

  /** Blank cells opened before the recursive call from n, by it, or n itself have no Hidden neighbour afterwards. */
  lemma ClosedAfterBlank(g0: Grid, g: Grid, g1: Grid, g2: Grid, n: Coord)
    requires SameShape(g0, g) && ClosedUnder(g0, g) && RevealsOnly(g0, g1) && StaysOpen(g, g2)
    requires InGrid(g, n) && g1 == Set(g, n, RevealCell(At(g, n))) && IsHidden(At(g, n))
    requires SameShape(g1, g2) && ClosedUnder(g1, g2) && NeighboursRevealed(g1, g2, n)
    ensures ClosedUnder(g0, g2)
  {
    forall i, j | 0 <= i < |g0| && 0 <= j < Width(g0) && IsBlank(g0[i][j]) && !IsHidden(g2[i][j])
      ensures forall q :: q in NeighboursOf(g0, (i, j)) ==> InGrid(g0, q) && !IsHidden(At(g2, q))
    {
      NeighboursInGrid(g0, (i, j));
      assert NeighboursOf(g1, (i, j)) == NeighboursOf(g0, (i, j));
      if IsHidden(g1[i][j]) {
        assert IsBlank(g1[i][j]);
      } else if (i, j) == n {
        assert NeighboursOf(g1, n) == NeighboursOf(g0, (i, j));
      } else {
        assert !IsHidden(g[i][j]);
      }
    }
  }

  lemma StepBlankClosed(g0: Grid, g: Grid, g2: Grid, p: Coord, t: nat)
    requires BlankStep(g0, g, g2, p, t)
    ensures ClosedUnder(g0, g2)
  {
    var n := NeighboursOf(g0, p)[t];
    var g1 := Opening(g0, g, p, t);
    BlankStepStaysOpen(g0, g, g2, p, t);
    assert RevealsOnly(g0, g1);
    ClosedAfterBlank(g0, g, g1, g2, n);
  }

  /** Every cell that is not Hidden in g is not Hidden in g2. */
  predicate StaysOpen(g: Grid, g2: Grid)
  {
    SameShape(g, g2) &&
    forall i, j :: 0 <= i < |g| && 0 <= j < Width(g) && !IsHidden(g[i][j]) ==> !IsHidden(g2[i][j])
  }

  /**
   * A walk from n opened by the recursive call from n: putting p in front of
   * it gives a walk from p, since n is a blank neighbour of p that is now open.
   */
  lemma ReachedInner(g0: Grid, g1: Grid, g2: Grid, p: Coord, path: seq<Coord>)
    requires RevealsOnly(g0, g1) && SameShape(g1, g2) && Walk(g1, g2, path)
    requires path[0] in NeighboursOf(g0, p) && InGrid(g0, path[0]) && IsBlank(At(g0, path[0])) && !IsHidden(At(g2, path[0]))
    ensures SameShape(g0, g2) && Walk(g0, g2, [p] + path)
    ensures ReachedBy(g0, g2, p, path[|path| - 1].0, path[|path| - 1].1)
  {
    WalkUnrevealed(g0, g1, g2, path);
    PrependWalk(g0, g1, g2, p, path);
    assert ([p] + path)[|path|] == path[|path| - 1];
  }

  /** A neighbour of p that is open ends the walk [p, n]. */
  lemma ReachedNeighbour(g0: Grid, g2: Grid, p: Coord, n: Coord)
    requires SameShape(g0, g2) && n in NeighboursOf(g0, p)
    ensures Walk(g0, g2, [p, n]) && ReachedBy(g0, g2, p, n.0, n.1)
  {
    assert StepsOn(g0, [p, n], 0);
  }

  /** A cell that p's cascade opened ends some walk from p. */
  lemma PickWalk(g0: Grid, g1: Grid, p: Coord, i: int, j: int) returns (path: seq<Coord>)
    requires SameShape(g0, g1) && ReachedFrom(g0, g1, p)
    requires 0 <= i < |g0| && 0 <= j < Width(g0) && IsHidden(g0[i][j]) && !IsHidden(g1[i][j])
    ensures Walk(g0, g1, path) && path[0] == p && path[|path| - 1] == (i, j)
  {
    assert OpenedCell(g0, g1, i, j);
    path :| Walk(g0, g1, path) && path[0] == p && path[|path| - 1] == (i, j);
  }

  /** The inner cells of a walk, blank in g1, are as they were in g0. */
  lemma WalkUnrevealed(g0: Grid, g1: Grid, g2: Grid, path: seq<Coord>)
    requires RevealsOnly(g0, g1) && SameShape(g1, g2) && Walk(g1, g2, path)
    ensures forall k :: 0 < k < |path| - 1 ==> At(g1, path[k]) == At(g0, path[k])
  {
    forall k | 0 < k < |path| - 1
      ensures At(g1, path[k]) == At(g0, path[k])
    {
      HiddenUnrevealed(g0, g1, path[k]);
    }
  }

  /** A cell that is still Hidden after reveals was not changed. */
  lemma HiddenUnrevealed(g0: Grid, g1: Grid, c: Coord)
    requires RevealsOnly(g0, g1) && InGrid(g0, c) && IsHidden(At(g1, c))
    ensures At(g1, c) == At(g0, c)
  {
  }

  /** A walk from a blank neighbour n of p, through cells that are as they were in g0, extends to a walk from p. */
  lemma PrependWalk(g0: Grid, g1: Grid, g2: Grid, p: Coord, path: seq<Coord>)
    requires SameShape(g0, g1) && SameShape(g1, g2) && Walk(g1, g2, path)
    requires path[0] in NeighboursOf(g0, p) && InGrid(g0, path[0]) && IsBlank(At(g0, path[0])) && !IsHidden(At(g2, path[0]))
    requires forall k :: 0 < k < |path| - 1 ==> At(g1, path[k]) == At(g0, path[k])
    ensures SameShape(g0, g2) && Walk(g0, g2, [p] + path)
  {
    var walk := [p] + path;
    forall k | 0 <= k < |walk| - 1
      ensures StepsOn(g0, walk, k)
    {
      if k > 0 {
        assert StepsOn(g1, path, k - 1);
        assert walk[k] == path[k - 1] && walk[k + 1] == path[k];
      }
    }
    forall k | 0 < k < |walk| - 1
      ensures InGrid(g0, walk[k]) && IsBlank(At(g0, walk[k])) && !IsHidden(At(g2, walk[k]))
    {
      assert walk[k] == path[k - 1];
    }
  }

  /** A cell opened before the recursive call is still the end of a walk from p after it. */
  lemma ReachedOuter(g0: Grid, g: Grid, g2: Grid, p: Coord, i: int, j: int)
    requires SameShape(g0, g) && ReachedFrom(g0, g, p) && StaysOpen(g, g2)
    requires 0 <= i < |g0| && 0 <= j < Width(g0) && IsHidden(g0[i][j]) && !IsHidden(g[i][j])
    ensures ReachedBy(g0, g2, p, i, j)
  {
    var path := PickWalk(g0, g, p, i, j);
    WalkStaysOpen(g0, g, g2, path);
  }

  /** The recursive call, after n was revealed, closes no cell that was open. */
  lemma BlankStepStaysOpen(g0: Grid, g: Grid, g2: Grid, p: Coord, t: nat)
    requires BlankStep(g0, g, g2, p, t)
    ensures StaysOpen(g, g2)
  {
    var g1 := Opening(g0, g, p, t);
    forall i, j | 0 <= i < |g| && 0 <= j < Width(g) && !IsHidden(g[i][j])
      ensures !IsHidden(g2[i][j])
    {
      assert !IsHidden(g1[i][j]);
    }
  }

  lemma StepBlankReached(g0: Grid, g: Grid, g2: Grid, p: Coord, t: nat)
    requires BlankStep(g0, g, g2, p, t)
    ensures ReachedFrom(g0, g2, p)
  {
    var n := NeighboursOf(g0, p)[t];
    var g1 := Opening(g0, g, p, t);
    BlankStepStaysOpen(g0, g, g2, p, t);
    assert RevealsOnly(g0, g1);
    ReachedAfterBlank(g0, g, g1, g2, p, n);
  }

  /**
   * A cell open after the recursive call from n was opened by it (a walk
   * from n, with p put in front), is n itself, or was open before.
   */
  lemma ReachedAfterBlank(g0: Grid, g: Grid, g1: Grid, g2: Grid, p: Coord, n: Coord)
    requires SameShape(g0, g) && ReachedFrom(g0, g, p) && StaysOpen(g, g2)
    requires InGrid(g, n) && g1 == Set(g, n, RevealCell(At(g, n)))
    requires RevealsOnly(g0, g1) && SameShape(g1, g2) && ReachedFrom(g1, g2, n)
    requires n in NeighboursOf(g0, p) && InGrid(g0, n) && IsBlank(At(g0, n)) && !IsHidden(At(g2, n))
    requires SameShape(g0, g2)
    ensures ReachedFrom(g0, g2, p)
  {
    forall i, j | OpenedCell(g0, g2, i, j)
      ensures ReachedBy(g0, g2, p, i, j)
    {
      if IsHidden(g1[i][j]) {
        var path := PickWalk(g1, g2, n, i, j);
        ReachedInner(g0, g1, g2, p, path);
      } else if (i, j) == n {
        ReachedNeighbour(g0, g2, p, n);
      } else {
        ReachedOuter(g0, g, g2, p, i, j);
      }
    }
  }

  /**
   * A blank neighbour of p: revealing it and then running the cascade from it
   * (the recursive call) keeps the partial cascade from p.
   */
  lemma StepBlank(g0: Grid, g: Grid, g2: Grid, p: Coord, t: nat)
    requires BlankStep(g0, g, g2, p, t)
    ensures Partial(g0, g2, p, t + 1)
  {
    StepBlankReveals(g0, g, g2, p, t);
    StepBlankClosed(g0, g, g2, p, t);
    StepBlankReached(g0, g, g2, p, t);
  }

  /**
   * What "only reveals" means cell by cell: a cell that was not Hidden is
   * untouched (so Flagged cells stay Flagged), a Hidden cell stays Hidden or
   * becomes Revealed, and no cell changes its type or its digit.
   */
  lemma RevealsOnlyMeaning(g0: Grid, g1: Grid, i: int, j: int)
    requires RevealsOnly(g0, g1) && 0 <= i < |g0| && 0 <= j < Width(g0)
    ensures !IsHidden(g0[i][j]) ==> g1[i][j] == g0[i][j]
    ensures IsHidden(g0[i][j]) ==> IsHidden(g1[i][j]) || IsRevealed(g1[i][j])
    ensures IsMine(g1[i][j]) == IsMine(g0[i][j]) && Digit(g1[i][j]) == Digit(g0[i][j])
  {
  }

  /** Revealing after revealing is revealing. */
  lemma RevealsOnlyTrans(g0: Grid, g1: Grid, g2: Grid)
    requires RevealsOnly(g0, g1) && RevealsOnly(g1, g2)
    ensures RevealsOnly(g0, g2)
  {
    forall i, j | 0 <= i < |g0| && 0 <= j < Width(g0)
      ensures g2[i][j] == g0[i][j] || g2[i][j] == RevealCell(g0[i][j])
    {
      RevealIdempotent(g0[i][j]);
    }
  }

  /**
   * Opening a Hidden neighbour during the cascade leaves fewer Hidden cells
   * than the board had when the cascade started: the measure of the recursion.
   */
  lemma OpeningShrinks(g0: Grid, g: Grid, p: Coord, t: nat)
    requires Partial(g0, g, p, t) && t < |NeighboursOf(g0, p)|
    requires InGrid(g0, NeighboursOf(g0, p)[t]) && IsHidden(At(g, NeighboursOf(g0, p)[t]))
    ensures RevealsOnly(g0, Opening(g0, g, p, t))
    ensures HiddenCells(Opening(g0, g, p, t)) < HiddenCells(g0)
  {
    var n := NeighboursOf(g0, p)[t];
    var g1 := Opening(g0, g, p, t);
    assert RevealsOnly(g, g1) by {
      forall i, j | 0 <= i < |g| && 0 <= j < Width(g)
        ensures g1[i][j] == g[i][j] || g1[i][j] == RevealCell(g[i][j])
      {
      }
    }
    RevealsOnlyTrans(g0, g, g1);
    HiddenShrinks(g0, g1, n);
  }

  /** Revealing cells changes no type and no digit, so a consistent board stays consistent. */
  lemma RevealsOnlyConsistent(g0: Grid, g1: Grid)
    requires RevealsOnly(g0, g1) && Consistent(g0)
    ensures SameMines(g0, g1) && Consistent(g1)
  {
    SameMinesConsistent(g0, g1);
  }

  /**
   * On a consistent board the cascade from a neutral cell with digit 0 opens
   * no mine: the cell before an opened cell on its walk is p or a blank
   * cell, and those have no mine around them.
   */
  lemma CascadeSparesMines(g0: Grid, g1: Grid, p: Coord)
    requires Consistent(g0) && RevealsOnly(g0, g1) && ReachedFrom(g0, g1, p)
    requires InGrid(g0, p) && !IsMine(At(g0, p)) && Digit(At(g0, p)) == 0
    ensures forall i, j :: 0 <= i < |g0| && 0 <= j < Width(g0) && IsMine(g0[i][j]) ==> g1[i][j] == g0[i][j]
  {
    forall i, j | 0 <= i < |g0| && 0 <= j < Width(g0) && IsMine(g0[i][j])
      ensures g1[i][j] == g0[i][j]
    {
      if g1[i][j] != g0[i][j] {
        assert IsHidden(g0[i][j]) && !IsHidden(g1[i][j]);
        var path := PickWalk(g0, g1, p, i, j);
        var c := path[|path| - 2];
        assert StepsOn(g0, path, |path| - 2);
        if |path| == 2 {
          ZeroCellHasNoMineNeighbour(g0, p, (i, j));
        } else {
          ZeroCellHasNoMineNeighbour(g0, c, (i, j));
        }
      }
    }
  }

  /**
   * Every cell after the start of a walk from p is open on any board that
   * has p's neighbours revealed and no open blank cell with a Hidden
   * neighbour.
   */
  lemma {:induction false} WalkOpens(g0: Grid, g2: Grid, p: Coord, path: seq<Coord>, k: nat)
    requires IsRect(g0) && BlankWalk(g0, path) && path[0] == p
    requires SameShape(g0, g2) && NeighboursRevealed(g0, g2, p) && ClosedUnder(g0, g2)
    requires 1 <= k < |path|
    ensures InGrid(g0, path[k]) && !IsHidden(At(g2, path[k]))
    decreases k
  {
    if k == 1 {
      assert StepsOn(g0, path, 0);
    } else {
      WalkOpens(g0, g2, p, path, k - 1);
      var c := path[k - 1];
      assert IsBlank(g0[c.0][c.1]) && !IsHidden(g2[c.0][c.1]);
      assert StepsOn(g0, path, k - 1);
      assert path[k] in NeighboursOf(g0, (c.0, c.1));
    }
  }

  /** A cell one cascade from p opens, every cascade from p opens. */
  lemma OpenedByEvery(g0: Grid, g1: Grid, g2: Grid, p: Coord, i: int, j: int)
    requires SameShape(g0, g1) && ReachedFrom(g0, g1, p)
    requires SameShape(g0, g2) && NeighboursRevealed(g0, g2, p) && ClosedUnder(g0, g2)
    requires 0 <= i < |g0| && 0 <= j < Width(g0) && IsHidden(g0[i][j]) && !IsHidden(g1[i][j])
    ensures !IsHidden(g2[i][j])
  {
    var path := PickWalk(g0, g1, p, i, j);
    WalkOpens(g0, g2, p, path, |path| - 1);
  }

  /**
   * The cascade from p has one outcome: it opens exactly the cells that walks
   * from p through blank cells reach, and nothing else.
   */
  lemma CascadeUnique(g0: Grid, g1: Grid, g2: Grid, p: Coord)
    requires Cascade(g0, g1, p) && Cascade(g0, g2, p)
    ensures g1 == g2
  {
    forall i, j | 0 <= i < |g0| && 0 <= j < Width(g0)
      ensures g1[i][j] == g2[i][j]
    {
      if IsHidden(g0[i][j]) {
        if !IsHidden(g1[i][j]) {
          OpenedByEvery(g0, g1, g2, p, i, j);
        }
        if !IsHidden(g2[i][j]) {
          OpenedByEvery(g0, g2, g1, p, i, j);
        }
      }
    }
    forall i | 0 <= i < |g1|
      ensures g1[i] == g2[i]
    {
    }
  }

  /** Every mine of g0 other than the one at p is untouched in g1. */
  predicate MinesKept(g0: Grid, g1: Grid, p: Coord)
  {
    SameShape(g0, g1) &&
    forall i, j :: 0 <= i < |g0| && 0 <= j < Width(g0) && (i, j) != p && IsMine(g0[i][j]) ==> g1[i][j] == g0[i][j]
  }

  /**
   * The board after a left click on p: a click on a cell that is not Hidden
   * changes nothing, a Hidden cell is revealed, and a blank one then starts
   * the cascade.
   */
  ghost predicate Clicked(g0: Grid, g1: Grid, p: Coord)
    requires IsRect(g0) && InGrid(g0, p)
  {
    var shown := Set(g0, p, RevealCell(At(g0, p)));
    if !IsHidden(At(g0, p)) then g1 == g0
    else if IsBlank(At(g0, p)) then Cascade(shown, g1, p)
    else g1 == shown
  }
  /** A click has one outcome. */
  lemma ClickedUnique(g0: Grid, g1: Grid, g2: Grid, p: Coord)
    requires IsRect(g0) && InGrid(g0, p) && Clicked(g0, g1, p) && Clicked(g0, g2, p)
    ensures g1 == g2
  {
    if IsHidden(At(g0, p)) && IsBlank(At(g0, p)) {
      CascadeUnique(Set(g0, p, RevealCell(At(g0, p))), g1, g2, p);
    }
  }


  /**
   * A click only reveals cells, p among them when it was Hidden; on a
   * consistent board the result is consistent with no mine opened other
   * than p itself.
   */
  lemma ClickOpens(g0: Grid, g2: Grid, p: Coord)
    requires IsRect(g0) && InGrid(g0, p) && Clicked(g0, g2, p)
    ensures RevealsOnly(g0, g2)
    ensures IsHidden(At(g0, p)) ==> At(g2, p) == RevealCell(At(g0, p))
    ensures Consistent(g0) ==> SameMines(g0, g2) && Consistent(g2) && MinesKept(g0, g2, p)
  {
    if !IsHidden(At(g0, p)) {
      if Consistent(g0) {
        RevealsOnlyConsistent(g0, g2);
      }
    } else if IsBlank(At(g0, p)) {
      CascadeOpens(g0, g2, p);
    } else {
      assert RevealsOnly(g0, g2);
      if Consistent(g0) {
        RevealsOnlyConsistent(g0, g2);
      }
    }
  }

  /** The blank case of `ClickOpens`: revealing p and then cascading from it. */
  lemma CascadeOpens(g0: Grid, g2: Grid, p: Coord)
    requires IsRect(g0) && InGrid(g0, p) && IsBlank(At(g0, p))
    requires Cascade(Set(g0, p, RevealCell(At(g0, p))), g2, p)
    ensures RevealsOnly(g0, g2) && At(g2, p) == RevealCell(At(g0, p))
    ensures Consistent(g0) ==> SameMines(g0, g2) && Consistent(g2) && MinesKept(g0, g2, p)
  {
    var g1 := Set(g0, p, RevealCell(At(g0, p)));
    assert RevealsOnly(g0, g1);
    RevealsOnlyTrans(g0, g1, g2);
    if Consistent(g0) {
      CascadeKeepsMines(g0, g1, g2, p);
    }
  }

  /** On a consistent board, revealing blank p and cascading from it keeps every mine. */
  lemma CascadeKeepsMines(g0: Grid, g1: Grid, g2: Grid, p: Coord)
    requires Consistent(g0) && InGrid(g0, p) && IsBlank(At(g0, p))
    requires RevealsOnly(g0, g1) && g1 == Set(g0, p, RevealCell(At(g0, p)))
    requires RevealsOnly(g1, g2) && ReachedFrom(g1, g2, p) && RevealsOnly(g0, g2)
    ensures SameMines(g0, g2) && Consistent(g2) && MinesKept(g0, g2, p)
  {
    RevealsOnlyConsistent(g0, g1);
    CascadeSparesMines(g1, g2, p);
    RevealsOnlyConsistent(g0, g2);
  }

  /** A board of Hidden neutral cells with digit 0: a field without mines. */
  predicate EmptyBoard(g: Grid)
  {
    IsRect(g) && forall i, j :: 0 <= i < |g| && 0 <= j < Width(g) ==> g[i][j] == 10
  }

  /**
   * On a board without mines every cell is blank: after the first cell is
   * revealed, the cascade from it reveals the whole board.
   */
  lemma CascadeOnEmptyBoard(g0: Grid, g1: Grid, p: Coord)
    requires IsRect(g0) && InGrid(g0, p) && At(g0, p) == 20
    requires forall i, j :: 0 <= i < |g0| && 0 <= j < Width(g0) && (i, j) != p ==> g0[i][j] == 10
    requires Cascade(g0, g1, p)
    ensures forall i, j :: 0 <= i < |g1| && 0 <= j < Width(g1) ==> g1[i][j] == 20
  {
    var h, w := |g0|, Width(g0);
    var open := set i, j | 0 <= i < h && 0 <= j < w && !IsHidden(g1[i][j]) :: (i, j);
    forall x, y | x in open && InBounds(h, w, y) && Adjacent(y, x)
      ensures y in open
    {
      NeighboursMembers(h, w, x.0, x.1, y);
      assert y in NeighboursOf(g0, x);
      if x != p {
        assert IsBlank(g0[x.0][x.1]) && !IsHidden(g1[x.0][x.1]);
        assert NeighboursOf(g0, (x.0, x.1)) == NeighboursOf(g0, x);
      }
      assert !IsHidden(g1[y.0][y.1]);
    }
    forall i, j | 0 <= i < h && 0 <= j < w
      ensures g1[i][j] == 20
    {
      ConnectedCover(h, w, open, p, (i, j));
    }
  }

  /** A click on a board without mines opens every cell. */
  lemma ClickOnEmptyBoard(g0: Grid, g1: Grid, p: Coord)
    requires EmptyBoard(g0) && InGrid(g0, p) && Clicked(g0, g1, p)
    ensures SameShape(g0, g1)
    ensures forall i, j :: 0 <= i < |g1| && 0 <= j < Width(g1) ==> g1[i][j] == 20
  {
    CascadeOnEmptyBoard(Set(g0, p, RevealCell(At(g0, p))), g1, p);
  }

  /** A row with a 0 at the left, a mine in the middle and a zero region at the right. */
  const SplitRow: Grid := [[20, 11, 19, 11, 10, 10]]

  /** From the revealed 0 at the left, the only cell to open is its neighbour (0,1). */
  lemma SplitRowNeighbour(q: Coord)
    ensures q in NeighboursOf(SplitRow, (0, 0)) <==> q == (0, 1)
  {
    NeighboursMembers(1, 6, 0, 0, q);
  }

  /** The cascade from (0,0) opens (0,1) and nothing else. */
  lemma SplitRowOpens()
    ensures Cascade(SplitRow, [[20, 21, 19, 11, 10, 10]], (0, 0))
  {
    var g0, g1 := SplitRow, [[20, 21, 19, 11, 10, 10]];
    assert SameShape(g0, g1);
    forall j | 0 <= j < 6
      ensures g1[0][j] == g0[0][j] || g1[0][j] == RevealCell(g0[0][j])
      ensures IsHidden(g0[0][j]) && !IsHidden(g1[0][j]) ==> j == 1
      ensures IsBlank(g0[0][j]) ==> IsHidden(g1[0][j])
    {
    }
    forall q | q in NeighboursOf(g0, (0, 0))
      ensures InGrid(g0, q) && At(g1, q) == RevealCell(At(g0, q))
    {
      SplitRowNeighbour(q);
    }
    SplitRowNeighbour((0, 1));
    ReachedNeighbour(g0, g1, (0, 0), (0, 1));
    forall i, j | OpenedCell(g0, g1, i, j)
      ensures ReachedBy(g0, g1, (0, 0), i, j)
    {
    }
  }

  /** Every walk from (0,0) ends at (0,1): the only neighbour is not blank, so a walk cannot go on. */
  lemma SplitRowWalks(g1: Grid, path: seq<Coord>)
    requires SameShape(SplitRow, g1) && Walk(SplitRow, g1, path) && path[0] == (0, 0)
    ensures path[|path| - 1] == (0, 1)
  {
    assert StepsOn(SplitRow, path, 0);
    SplitRowNeighbour(path[1]);
    assert !IsBlank(SplitRow[0][1]);
  }

  /** Opening the zero region behind the mine as well is not a cascade from (0,0). */
  lemma SplitRowStops()
    ensures !Cascade(SplitRow, [[20, 21, 19, 21, 20, 20]], (0, 0))
  {
    var g0, wide := SplitRow, [[20, 21, 19, 21, 20, 20]];
    assert SameShape(g0, wide);
    assert OpenedCell(g0, wide, 0, 4);
    SplitRowUnreached(wide);
  }

  /** No walk from (0,0) ends at (0,4), the zero region behind the mine. */
  lemma SplitRowUnreached(g1: Grid)
    requires SameShape(SplitRow, g1)
    ensures !ReachedBy(SplitRow, g1, (0, 0), 0, 4)
  {
    forall path | Walk(SplitRow, g1, path) && path[0] == (0, 0)
      ensures path[|path| - 1] != (0, 4)
    {
      SplitRowWalks(g1, path);
    }
  }

}
