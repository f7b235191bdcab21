/**
 * Coordinates, board values and the 8-neighbourhood
 * (`getNeighbours` in src/modules/board/board-keeper.ts). A board is
 * rectangular; `Grid` is its value as rows of encoded cells, used by the
 * specifications of the board operations.
 */
module Grids {
  import opened CellKeeper

  type Coord = (int, int)

  type Grid = seq<seq<int>>

  function Width(g: Grid): nat
  {
    if |g| == 0 then 0 else |g[0]|
  }

  predicate IsRect(g: Grid)
  {
    forall i :: 0 <= i < |g| ==> |g[i]| == Width(g)
  }

  predicate InBounds(h: int, w: int, p: Coord)
  {
    0 <= p.0 < h && 0 <= p.1 < w
  }

  predicate InGrid(g: Grid, p: Coord)
  {
    InBounds(|g|, Width(g), p)
  }

  function At(g: Grid, p: Coord): int
    requires IsRect(g) && InGrid(g, p)
  {
    g[p.0][p.1]
  }

  /** The board value with cell `p` replaced by `v`. */
  function Set(g: Grid, p: Coord, v: int): (r: Grid)
    requires IsRect(g) && InGrid(g, p)
    ensures IsRect(r) && |r| == |g| && Width(r) == Width(g)
    ensures forall i, j :: 0 <= i < |g| && 0 <= j < Width(g) ==>
      r[i][j] == if (i, j) == p then v else g[i][j]
  {
    g[p.0 := g[p.0][p.1 := v]]
  }

  /** Two distinct cells that touch, sideways or diagonally. */
  predicate Adjacent(p: Coord, q: Coord)
  {
    p != q && -1 <= p.0 - q.0 <= 1 && -1 <= p.1 - q.1 <= 1
  }

  // ---- Neighbour enumeration ----

  /**
   * The k-th of the nine positions around (row, col), in the order `getNeighbours`
   * visits them: row offsets -1, 0, 1, and within each column offsets -1, 0, 1.
   */
  function Candidate(row: int, col: int, k: int): Coord
  {
    (row + k / 3 - 1, col + k % 3 - 1)
  }

  /** Candidate k is kept when it is not the centre and lies on the board. */
  predicate Kept(h: int, w: int, row: int, col: int, k: int)
  {
    k != 4 && InBounds(h, w, Candidate(row, col, k))
  }

  /** The neighbours found among the first k candidates. */
  function NeighboursUpTo(h: int, w: int, row: int, col: int, k: nat): seq<Coord>
    requires k <= 9
  {
    if k == 0 then []
    else NeighboursUpTo(h, w, row, col, k - 1) +
         (if Kept(h, w, row, col, k - 1) then [Candidate(row, col, k - 1)] else [])
  }

  /** What `getNeighbours` returns for (row, col) on an h-by-w board. */
  function Neighbours(h: int, w: int, row: int, col: int): seq<Coord>
  {
    NeighboursUpTo(h, w, row, col, 9)
  }

  function NeighboursOf(g: Grid, p: Coord): seq<Coord>
  {
    Neighbours(|g|, Width(g), p.0, p.1)
  }

  /** The candidate for offsets (dr, dc) sits at index 3 * (dr + 1) + dc + 1. */
  lemma CandidateAt(row: int, col: int, dr: int, dc: int)
    requires -1 <= dr <= 1 && -1 <= dc <= 1
    ensures Candidate(row, col, 3 * (dr + 1) + dc + 1) == (row + dr, col + dc)
  {
    var k := 3 * (dr + 1) + dc + 1;
    assert k / 3 == dr + 1 && k % 3 == dc + 1;
  }

  /** Row-major position of p relative to (row, col); it is k - 4 for candidate k. */
  function Key(row: int, col: int, p: Coord): int
  {
    3 * (p.0 - row) + (p.1 - col)
  }

  lemma CandidateKey(row: int, col: int, k: int)
    requires 0 <= k < 9
    ensures Key(row, col, Candidate(row, col, k)) == k - 4
    ensures Candidate(row, col, k) != (row, col) <==> k != 4
    ensures -1 <= k / 3 - 1 <= 1 && -1 <= k % 3 - 1 <= 1
  {
  }

  /** Members of the first k candidates: exactly the kept ones. */
  lemma {:induction false} UpToMembers(h: int, w: int, row: int, col: int, k: nat, p: Coord)
    requires k <= 9
    ensures p in NeighboursUpTo(h, w, row, col, k) <==>
      exists j :: 0 <= j < k && Kept(h, w, row, col, j) && Candidate(row, col, j) == p
  {
    if k > 0 {
      UpToMembers(h, w, row, col, k - 1, p);
    }
  }

  /** The neighbours are in strictly increasing row-major order, below candidate k. */
  lemma {:induction false} UpToOrdered(h: int, w: int, row: int, col: int, k: nat)
    requires k <= 9
    ensures forall a, b :: 0 <= a < b < |NeighboursUpTo(h, w, row, col, k)| ==>
      Key(row, col, NeighboursUpTo(h, w, row, col, k)[a]) < Key(row, col, NeighboursUpTo(h, w, row, col, k)[b])
    ensures forall a :: 0 <= a < |NeighboursUpTo(h, w, row, col, k)| ==>
      Key(row, col, NeighboursUpTo(h, w, row, col, k)[a]) < k - 4
  {
    if k > 0 {
      UpToOrdered(h, w, row, col, k - 1);
      CandidateKey(row, col, k - 1);
      var prev := NeighboursUpTo(h, w, row, col, k - 1);
      var s := NeighboursUpTo(h, w, row, col, k);
      forall a | 0 <= a < |s|
        ensures Key(row, col, s[a]) < k - 4
      {
        if a < |prev| {
          assert s[a] == prev[a];
        } else {
          assert s[a] == Candidate(row, col, k - 1);
        }
      }
      forall a, b | 0 <= a < b < |s|
        ensures Key(row, col, s[a]) < Key(row, col, s[b])
      {
        assert s[a] == prev[a];
        if b < |prev| {
          assert s[b] == prev[b];
        } else {
          assert s[b] == Candidate(row, col, k - 1);
        }
      }
    }
  }

  /** At most one neighbour per candidate, the centre never among them. */
  lemma {:induction false} UpToLength(h: int, w: int, row: int, col: int, k: nat)
    requires k <= 9
    ensures |NeighboursUpTo(h, w, row, col, k)| <= if k <= 4 then k else k - 1
    ensures 0 < row < h - 1 && 0 < col < w - 1 ==>
      |NeighboursUpTo(h, w, row, col, k)| == if k <= 4 then k else k - 1
  {
    if k > 0 {
      UpToLength(h, w, row, col, k - 1);
      CandidateKey(row, col, k - 1);
    }
  }

  /**
   * `getNeighbours` returns exactly the in-bounds cells adjacent to (row, col):
   * never (row, col) itself, never a cell off the board, and none is missed.
   */
  lemma NeighboursMembers(h: int, w: int, row: int, col: int, p: Coord)
    ensures p in Neighbours(h, w, row, col) <==> InBounds(h, w, p) && Adjacent(p, (row, col))
  {
    UpToMembers(h, w, row, col, 9, p);
    if p in Neighbours(h, w, row, col) {
      var j :| 0 <= j < 9 && Kept(h, w, row, col, j) && Candidate(row, col, j) == p;
      CandidateKey(row, col, j);
    }
    if InBounds(h, w, p) && Adjacent(p, (row, col)) {
      CandidateAt(row, col, p.0 - row, p.1 - col);
      var j := 3 * (p.0 - row + 1) + p.1 - col + 1;
      assert Kept(h, w, row, col, j) && Candidate(row, col, j) == p;
    }
  }

  /** No cell is listed twice, there are at most 8, and exactly 8 away from the edges. */
  lemma NeighboursShape(h: int, w: int, row: int, col: int)
    ensures var s := Neighbours(h, w, row, col);
      (forall a, b :: 0 <= a < b < |s| ==> s[a] != s[b]) &&
      |s| <= 8 &&
      (0 < row < h - 1 && 0 < col < w - 1 ==> |s| == 8)
  {
    UpToOrdered(h, w, row, col, 9);
    UpToLength(h, w, row, col, 9);
  }

  /** Being neighbours is symmetric on the board. */
  lemma NeighboursSymmetric(h: int, w: int, p: Coord, q: Coord)
    requires InBounds(h, w, p) && InBounds(h, w, q)
    ensures q in Neighbours(h, w, p.0, p.1) <==> p in Neighbours(h, w, q.0, q.1)
  {
    NeighboursMembers(h, w, p.0, p.1, q);
    NeighboursMembers(h, w, q.0, q.1, p);
  }

  /** Every neighbour lies on the board. */
  lemma NeighboursInGrid(g: Grid, p: Coord)
    ensures forall q :: q in NeighboursOf(g, p) ==> InGrid(g, q) && Adjacent(q, p)
  {
    forall q | q in NeighboursOf(g, p)
      ensures InGrid(g, q) && Adjacent(q, p)
    {
      NeighboursMembers(|g|, Width(g), p.0, p.1, q);
    }
  }

  function Distance(p: Coord, q: Coord): nat
  {
    (if p.0 < q.0 then q.0 - p.0 else p.0 - q.0) + (if p.1 < q.1 then q.1 - p.1 else p.1 - q.1)
  }

  /** The board is connected: a set of cells that holds p and every neighbour of its members holds all cells. */
  lemma {:induction false} ConnectedCover(h: int, w: int, cells: set<Coord>, p: Coord, q: Coord)
    requires InBounds(h, w, p) && InBounds(h, w, q) && p in cells
    requires forall x, y :: x in cells && InBounds(h, w, y) && Adjacent(y, x) ==> y in cells
    ensures q in cells
    decreases Distance(p, q)
  {
    if q != p {
      var r := if q.0 < p.0 then q.0 + 1 else if q.0 > p.0 then q.0 - 1 else q.0;
      var c := if r != q.0 then q.1 else if q.1 < p.1 then q.1 + 1 else q.1 - 1;
      ConnectedCover(h, w, cells, p, (r, c));
      assert Adjacent(q, (r, c));
    }
  }
}
