/** Height maps: rectangular grids of heights, row `y` first, column `x` second, and the
    min/max normalisation the topographic and contour pipelines apply to them. */
module Heightmaps {
  import opened Mesh

  type Grid = seq<seq<real>>

  /** `g` has `h` rows of `w` cells each. */
  predicate IsGrid<T>(g: seq<seq<T>>, h: int, w: int)
  {
    |g| == h && forall y :: 0 <= y < h ==> |g[y]| == w
  }

  /** The cells of a 2-D array, as a value. */
  function Snapshot(a: array2<real>): (g: Grid)
    reads a
    ensures IsGrid(g, a.Length0, a.Length1)
    ensures forall y, x :: 0 <= y < a.Length0 && 0 <= x < a.Length1 ==> g[y][x] == a[y, x]
  {
    seq(a.Length0, y reads a => seq(a.Length1, x reads a => if 0 <= y < a.Length0 && 0 <= x < a.Length1 then a[y, x] else 0.0))
  }

  /** An array holds a value grid when its cells agree with the grid's. */
  lemma SnapshotEqual(a: array2<real>, s: Grid)
    requires IsGrid(s, a.Length0, a.Length1)
    requires forall y, x :: 0 <= y < a.Length0 && 0 <= x < a.Length1 ==> a[y, x] == s[y][x]
    ensures Snapshot(a) == s
  {
    var t := Snapshot(a);
    forall y | 0 <= y < |t|
      ensures t[y] == s[y]
    {
    }
  }

  /** Cell `(y, x)` of `g`, or 0 outside it. */
  function Sample(g: Grid, y: int, x: int): real
  {
    if 0 <= y < |g| && 0 <= x < |g[y]| then g[y][x] else 0.0
  }

  /** All cells, row after row. */
  function Flatten(g: Grid): seq<real>
  {
    if |g| == 0 then [] else Flatten(g[..|g| - 1]) + g[|g| - 1]
  }

  lemma {:induction false} FlattenHas(g: Grid, y: int, x: int)
    requires 0 <= y < |g| && 0 <= x < |g[y]|
    ensures g[y][x] in Flatten(g)
  {
    if y < |g| - 1 {
      FlattenHas(g[..|g| - 1], y, x);
    } else {
      assert g[y][x] in g[|g| - 1];
    }
  }

  lemma {:induction false} FlattenOwner(g: Grid, v: real) returns (y: int, x: int)
    requires v in Flatten(g)
    ensures 0 <= y < |g| && 0 <= x < |g[y]| && g[y][x] == v
  {
    var init := g[..|g| - 1];
    if v in Flatten(init) {
      y, x := FlattenOwner(init, v);
      assert g[y] == init[y];
    } else {
      y := |g| - 1;
      x :| 0 <= x < |g[y]| && g[y][x] == v;
    }
  }

  /** A grid with at least one cell. */
  predicate HasCells(g: Grid)
  {
    exists y :: 0 <= y < |g| && |g[y]| > 0
  }

  lemma FlattenNonEmpty(g: Grid)
    requires HasCells(g)
    ensures |Flatten(g)| > 0
  {
    var y :| 0 <= y < |g| && |g[y]| > 0;
    FlattenHas(g, y, 0);
  }

  /** The smallest element (numpy's `min` over all cells). */
  function SeqMin(s: seq<real>): (m: real)
    requires |s| > 0
    ensures m in s
    ensures forall i :: 0 <= i < |s| ==> m <= s[i]
  {
    if |s| == 1 then s[0]
    else
      var m' := SeqMin(s[1..]);
      assert forall i :: 1 <= i < |s| ==> s[i] == s[1..][i - 1];
      if s[0] < m' then s[0] else m'
  }

  /** The largest element (numpy's `max` over all cells). */
  function SeqMax(s: seq<real>): (m: real)
    requires |s| > 0
    ensures m in s
    ensures forall i :: 0 <= i < |s| ==> s[i] <= m
  {
    if |s| == 1 then s[0]
    else
      var m' := SeqMax(s[1..]);
      assert forall i :: 1 <= i < |s| ==> s[i] == s[1..][i - 1];
      if s[0] > m' then s[0] else m'
  }

  function GridMin(g: Grid): real
    requires HasCells(g)
  {
    FlattenNonEmpty(g);
    SeqMin(Flatten(g))
  }

  function GridMax(g: Grid): real
    requires HasCells(g)
  {
    FlattenNonEmpty(g);
    SeqMax(Flatten(g))
  }

  /** The lowest and highest cells bound every cell and are cells themselves. */
  lemma GridExtremes(g: Grid) returns (y0: int, x0: int, y1: int, x1: int)
    requires HasCells(g)
    ensures forall y, x :: 0 <= y < |g| && 0 <= x < |g[y]| ==> GridMin(g) <= g[y][x] <= GridMax(g)
    ensures 0 <= y0 < |g| && 0 <= x0 < |g[y0]| && g[y0][x0] == GridMin(g)
    ensures 0 <= y1 < |g| && 0 <= x1 < |g[y1]| && g[y1][x1] == GridMax(g)
  {
    FlattenNonEmpty(g);
    forall y, x | 0 <= y < |g| && 0 <= x < |g[y]|
      ensures GridMin(g) <= g[y][x] <= GridMax(g)
    {
      FlattenHas(g, y, x);
    }
    y0, x0 := FlattenOwner(g, GridMin(g));
    y1, x1 := FlattenOwner(g, GridMax(g));
  }

  /** Every cell equals every other one. */
  predicate Constant(g: Grid)
  {
    forall y, x, y', x' :: 0 <= y < |g| && 0 <= x < |g[y]| && 0 <= y' < |g| && 0 <= x' < |g[y']|
      ==> g[y][x] == g[y'][x']
  }

  /** `(h - min) / (max - min)` cell by cell. The division is not guarded: for a map
      whose cells are all equal it is `0/0`, and the map comes back all NaN, which is
      `None` here. An empty map makes numpy's `min` raise, hence the precondition. */
  function Normalize(g: Grid): (r: Option<Grid>)
    requires HasCells(g)
    ensures r.None? <==> Constant(g)
    ensures r.Some? ==> IsShaped(r.value, g)
  {
    var lo, hi := GridMin(g), GridMax(g);
    ConstantIffFlat(g);
    if lo == hi then None
    else Some(seq(|g|, y requires 0 <= y < |g| => seq(|g[y]|, x requires 0 <= x < |g[y]| => (g[y][x] - lo) / (hi - lo))))
  }

  /** Same number of rows, and of cells in each row. */
  predicate IsShaped(a: Grid, b: Grid)
  {
    |a| == |b| && forall y :: 0 <= y < |a| ==> |a[y]| == |b[y]|
  }

  lemma ConstantIffFlat(g: Grid)
    requires HasCells(g)
    ensures Constant(g) <==> GridMin(g) == GridMax(g)
  {
    var y0, x0, y1, x1 := GridExtremes(g);
  }

  /** The normalised map spans exactly `[0, 1]`: every cell lies in it, a cell is 0
      exactly where the input is lowest and 1 exactly where it is highest, and the
      order of cells is kept. */
  lemma NormalizeRange(g: Grid, y: int, x: int, y': int, x': int)
    requires HasCells(g) && Normalize(g).Some?
    requires 0 <= y < |g| && 0 <= x < |g[y]| && 0 <= y' < |g| && 0 <= x' < |g[y']|
    ensures var n := Normalize(g).value;
      0.0 <= n[y][x] <= 1.0 &&
      (n[y][x] == 0.0 <==> g[y][x] == GridMin(g)) &&
      (n[y][x] == 1.0 <==> g[y][x] == GridMax(g)) &&
      (n[y][x] <= n[y'][x'] <==> g[y][x] <= g[y'][x'])
  {
    var y0, x0, y1, x1 := GridExtremes(g);
    ConstantIffFlat(g);
    var n := Normalize(g).value;
    assert n[y][x] == (g[y][x] - GridMin(g)) / (GridMax(g) - GridMin(g));
    assert n[y'][x'] == (g[y'][x'] - GridMin(g)) / (GridMax(g) - GridMin(g));
    Rescale(g[y][x], g[y'][x'], GridMin(g), GridMax(g));
  }

  lemma Rescale(v: real, v': real, lo: real, hi: real)
    requires lo <= v <= hi && lo <= v' <= hi && lo < hi
    ensures var n, n' := (v - lo) / (hi - lo), (v' - lo) / (hi - lo);
      0.0 <= n <= 1.0 && (n == 0.0 <==> v == lo) && (n == 1.0 <==> v == hi) && (n <= n' <==> v <= v')
  {
    var d := hi - lo;
    DivMonotone(v - lo, v' - lo, d);
    DivMonotone(v - lo, d, d);
    DivMonotone(0.0, v - lo, d);
    assert d / d == 1.0 && 0.0 / d == 0.0;
  }

  lemma DivMonotone(a: real, b: real, d: real)
    requires d > 0.0
    ensures a <= b <==> a / d <= b / d
    ensures a == b <==> a / d == b / d
  {
  }

  /** A normalised map runs from exactly 0 to exactly 1. */
  lemma NormalizedSpan(g: Grid)
    requires HasCells(g) && Normalize(g).Some?
    ensures HasCells(Normalize(g).value)
    ensures GridMin(Normalize(g).value) == 0.0 && GridMax(Normalize(g).value) == 1.0
  {
    var n := Normalize(g).value;
    var y0, x0, y1, x1 := GridExtremes(g);
    NormalizeRange(g, y0, x0, y0, x0);
    NormalizeRange(g, y1, x1, y1, x1);
    assert |n[y0]| > 0;
    var a0, b0, a1, b1 := GridExtremes(n);
    NormalizeRange(g, a0, b0, a0, b0);
    NormalizeRange(g, a1, b1, a1, b1);
  }

  lemma NormalizeUnit(n: Grid)
    requires HasCells(n) && GridMin(n) == 0.0 && GridMax(n) == 1.0
    ensures Normalize(n) == Some(n)
  {
    ConstantIffFlat(n);
    var m := Normalize(n).value;
    forall y | 0 <= y < |n|
      ensures m[y] == n[y]
    {
      forall x | 0 <= x < |n[y]|
        ensures m[y][x] == n[y][x]
      {
        assert m[y][x] == (n[y][x] - 0.0) / (1.0 - 0.0);
      }
    }
    assert m == n;
  }

  /** Normalising a normalised map changes nothing. */
  lemma NormalizeIdempotent(g: Grid)
    requires HasCells(g) && Normalize(g).Some?
    ensures HasCells(Normalize(g).value)
    ensures Normalize(Normalize(g).value) == Normalize(g)
  {
    NormalizedSpan(g);
    NormalizeUnit(Normalize(g).value);
  }
}
