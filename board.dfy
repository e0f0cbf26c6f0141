/** The cell grid: its fixed dimensions, cell values, single-cell updates and
    the toroidal neighbour count (index.js:10-11, 40-53). */
module Board {
  import opened Toroid

  const GridWidth: int := 30
  const GridHeight: int := 30

  /** `grid[x][y]`: the outer index is the column `x`, the inner the row `y`. */
  type Grid = seq<seq<int>>

  predicate WellFormed(g: Grid) {
    |g| == GridWidth && forall x :: 0 <= x < |g| ==> |g[x]| == GridHeight
  }

  predicate InGrid(x: int, y: int) {
    0 <= x < GridWidth && 0 <= y < GridHeight
  }

  /** Every cell is background (0), foreground (1) or far foreground (2). */
  ghost predicate ValuesOk(g: Grid) {
    WellFormed(g) && forall x, y :: InGrid(x, y) ==> 0 <= g[x][y] <= 2
  }

  /** The two grids hold the same value everywhere except possibly at `(x, y)`. */
  ghost predicate AgreeExcept(g: Grid, h: Grid, x: int, y: int)
    requires WellFormed(g) && WellFormed(h)
  {
    forall i, j :: InGrid(i, j) && (i != x || j != y) ==> g[i][j] == h[i][j]
  }

  /** `grid[x][y] = v`. */
  function Set(g: Grid, x: int, y: int, v: int): (r: Grid)
    requires WellFormed(g) && InGrid(x, y)
    ensures WellFormed(r) && r[x][y] == v && AgreeExcept(g, r, x, y)
  {
    g[x := g[x][y := v]]
  }

  /** Two well-formed grids that agree cell for cell are equal. */
  lemma GridExt(a: Grid, b: Grid)
    requires WellFormed(a) && WellFormed(b)
    requires forall x, y :: InGrid(x, y) ==> a[x][y] == b[x][y]
    ensures a == b
  {
    forall x | 0 <= x < GridWidth
      ensures a[x] == b[x]
    {
      assert forall y :: 0 <= y < GridHeight ==> a[x][y] == b[x][y];
    }
  }

  /** The eight offsets `(dx, dy) != (0, 0)` in the order the scan of
      index.js:43-51 visits them: `dx` outer, `dy` inner, both from -1 to 1. */
  const Offsets: seq<(int, int)> :=
    [(-1, -1), (-1, 0), (-1, 1), (0, -1), (0, 1), (1, -1), (1, 0), (1, 1)]

  /** The position `d` away from `(x, y)` on the torus. */
  function Wrapped(x: int, y: int, d: (int, int)): (p: (int, int))
    ensures InGrid(p.0, p.1)
    ensures (p.0 - (x + d.0)) % GridWidth == 0 && (p.1 - (y + d.1)) % GridHeight == 0
  {
    (Mod(x + d.0, GridWidth), Mod(y + d.1, GridHeight))
  }

  /** How many of the positions `offs` away from `(x, y)` hold a value that
      satisfies `f`. */
  function CountOver(g: Grid, x: int, y: int, f: int -> bool, offs: seq<(int, int)>): (nc: nat)
    requires WellFormed(g)
    ensures nc <= |offs|
    decreases |offs|
  {
    if offs == [] then 0
    else
      var p := Wrapped(x, y, offs[|offs| - 1]);
      CountOver(g, x, y, f, offs[..|offs| - 1]) + (if f(g[p.0][p.1]) then 1 else 0)
  }

  /** The number of the eight wrapped neighbours of `(x, y)` whose value
      satisfies `f`. */
  function CountNeighbours(g: Grid, x: int, y: int, f: int -> bool): (nc: nat)
    requires WellFormed(g)
    ensures nc <= 8
  {
    CountOver(g, x, y, f, Offsets)
  }

  /** Scanning one more offset adds one exactly when its value satisfies `f`. */
  lemma CountOverNext(g: Grid, x: int, y: int, f: int -> bool, k: int)
    requires WellFormed(g) && 0 <= k < |Offsets|
    ensures var p := Wrapped(x, y, Offsets[k]);
      CountOver(g, x, y, f, Offsets[..k + 1]) ==
      CountOver(g, x, y, f, Offsets[..k]) + (if f(g[p.0][p.1]) then 1 else 0)
  {
    var seen := Offsets[..k + 1];
    assert seen[..|seen| - 1] == Offsets[..k];
  }

  /** The count depends on the neighbours alone: two grids that agree on
      the positions `offs` away from `(x, y)` give the same count. */
  lemma {:induction false} CountOverLocal(g: Grid, h: Grid, x: int, y: int, f: int -> bool, offs: seq<(int, int)>)
    requires WellFormed(g) && WellFormed(h)
    requires forall k :: 0 <= k < |offs| ==>
      g[Wrapped(x, y, offs[k]).0][Wrapped(x, y, offs[k]).1] == h[Wrapped(x, y, offs[k]).0][Wrapped(x, y, offs[k]).1]
    ensures CountOver(g, x, y, f, offs) == CountOver(h, x, y, f, offs)
    decreases |offs|
  {
    if offs != [] {
      var init := offs[..|offs| - 1];
      assert forall k :: 0 <= k < |init| ==> init[k] == offs[k];
      CountOverLocal(g, h, x, y, f, init);
    }
  }

  /** Every neighbour satisfies `f` exactly when the count is the number of
      positions scanned; none does exactly when it is zero. */
  lemma {:induction false} CountOverExtremes(g: Grid, x: int, y: int, f: int -> bool, offs: seq<(int, int)>)
    requires WellFormed(g)
    ensures CountOver(g, x, y, f, offs) == |offs| <==>
      forall k :: 0 <= k < |offs| ==> f(g[Wrapped(x, y, offs[k]).0][Wrapped(x, y, offs[k]).1])
    ensures CountOver(g, x, y, f, offs) == 0 <==>
      forall k :: 0 <= k < |offs| ==> !f(g[Wrapped(x, y, offs[k]).0][Wrapped(x, y, offs[k]).1])
    decreases |offs|
  {
    if offs != [] {
      var init := offs[..|offs| - 1];
      assert forall k :: 0 <= k < |init| ==> init[k] == offs[k];
      CountOverExtremes(g, x, y, f, init);
    }
  }

  /** On the 30 x 30 torus the eight positions scanned are distinct and none
      of them is `(x, y)` itself. */
  lemma NeighbourPositionsDistinct(x: int, y: int)
    requires InGrid(x, y)
    ensures forall k :: 0 <= k < 8 ==> Wrapped(x, y, Offsets[k]) != (x, y)
    ensures forall k, l :: 0 <= k < l < 8 ==> Wrapped(x, y, Offsets[k]) != Wrapped(x, y, Offsets[l])
  {
    NearDistinct(x, GridWidth);
    NearDistinct(y, GridHeight);
    WrappedByNear(x, y);
    OffsetTableDistinct(Near(x, GridWidth), Near(y, GridHeight));
  }

  /** Picking a column from `xs` and a row from `ys` by the offsets gives
      eight distinct positions, none of them the middle one. */
  lemma OffsetTableDistinct(xs: seq<int>, ys: seq<int>)
    requires |xs| == 3 && |ys| == 3
    requires forall i, j :: 0 <= i < j < 3 ==> xs[i] != xs[j] && ys[i] != ys[j]
    ensures forall k :: 0 <= k < 8 ==> (xs[Offsets[k].0 + 1], ys[Offsets[k].1 + 1]) != (xs[1], ys[1])
    ensures forall k, l :: 0 <= k < l < 8 ==>
      (xs[Offsets[k].0 + 1], ys[Offsets[k].1 + 1]) != (xs[Offsets[l].0 + 1], ys[Offsets[l].1 + 1])
  {
  }

  /** The column (or row) before `x`, `x` itself and the one after it, on
      a torus of size `n`. */
  function Near(x: int, n: int): (ns: seq<int>)
    requires 0 <= x < n
    ensures |ns| == 3 && ns[1] == x
  {
    [Mod(x - 1, n), x, Mod(x + 1, n)]
  }

  /** On a torus of at least three cells the three near coordinates are
      distinct. */
  lemma NearDistinct(x: int, n: int)
    requires 3 <= n && 0 <= x < n
    ensures forall i, j :: 0 <= i < j < 3 ==> Near(x, n)[i] != Near(x, n)[j]
  {
    ModNear(x, n);
  }

  /** Each scanned position takes its coordinates from the near columns
      and rows. */
  lemma WrappedByNear(x: int, y: int)
    requires InGrid(x, y)
    ensures forall k :: 0 <= k < 8 ==>
      Wrapped(x, y, Offsets[k]) == (Near(x, GridWidth)[Offsets[k].0 + 1], Near(y, GridHeight)[Offsets[k].1 + 1])
  {
    ModNear(x, GridWidth);
    ModNear(y, GridHeight);
  }

  /** The scan wraps at all four corners of the grid. */
  lemma CornersWrap()
    ensures Wrapped(0, 0, (-1, -1)) == (GridWidth - 1, GridHeight - 1)
    ensures Wrapped(GridWidth - 1, 0, (1, -1)) == (0, GridHeight - 1)
    ensures Wrapped(0, GridHeight - 1, (-1, 1)) == (GridWidth - 1, 0)
    ensures Wrapped(GridWidth - 1, GridHeight - 1, (1, 1)) == (0, 0)
  {
    ModEdges(GridWidth);
    ModEdges(GridHeight);
  }
}
