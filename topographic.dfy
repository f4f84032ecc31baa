/** Topographic layering: a normalised height map becomes a grid surface with one
    vertex per cell and two triangles per grid square. The GUI module
    (stl3d-gui/modules/topographic_layering.py) and the command-line script
    (topographic-layering.py) build the mesh with the same code. */
module Topographic {
  import opened Mesh
  import opened Tiling
  import opened Heightmaps
  import opened GridMesh

  lemma StrideInBounds(y: int, r: int, n: int)
    requires r > 0 && 0 <= y < n / r
    ensures 0 <= y * r < n
  {
    MulLe(0, y, r);
    MulLe(y + 1, n / r, r);
  }

  /** The strided point sample of a value grid: cell `(y, x)` is `g[y*r][x*r]`. */
  function Resample(g: Grid, w: int, r: int): Grid
    requires w >= 0 && r > 0
  {
    seq(|g| / r, y => seq(w / r, x => Sample(g, y * r, x * r)))
  }

  /** The strided sample keeps the range of the input's cells. */
  lemma ResampleRange(g: Grid, w: int, r: int, lo: real, hi: real)
    requires IsGrid(g, |g|, w) && w >= 0 && r > 0
    requires forall y, x :: 0 <= y < |g| && 0 <= x < w ==> lo <= g[y][x] <= hi
    ensures forall y, x :: 0 <= y < |g| / r && 0 <= x < w / r ==> lo <= Resample(g, w, r)[y][x] <= hi
  {
    forall y, x | 0 <= y < |g| / r && 0 <= x < w / r
      ensures lo <= Resample(g, w, r)[y][x] <= hi
    {
      ResampleCell(g, w, r, y, x);
    }
  }

  /** The strided sample has `h//r` rows of `w//r` cells. */
  lemma ResampleShape(g: Grid, w: int, r: int)
    requires w >= 0 && r > 0
    ensures IsGrid(Resample(g, w, r), |g| / r, w / r)
  {
    var s := Resample(g, w, r);
    assert |s| == |g| / r;
    forall y | 0 <= y < |s|
      ensures |s[y]| == w / r
    {
    }
  }

  /** Cell `(y, x)` of the strided sample is cell `(y*r, x*r)` of the input, which
      exists. */
  lemma ResampleCell(g: Grid, w: int, r: int, y: int, x: int)
    requires IsGrid(g, |g|, w) && w >= 0 && r > 0
    requires 0 <= y < |g| / r && 0 <= x < w / r
    ensures 0 <= y * r < |g| && 0 <= x * r < |g[y * r]| && Resample(g, w, r)[y][x] == g[y * r][x * r]
  {
    StrideInBounds(y, r, |g|);
    StrideInBounds(x, r, w);
    assert |g[y * r]| == w;
    assert Resample(g, w, r)[y][x] == Sample(g, y * r, x * r);
  }

  /** The resolution reduction: a zero-filled `(h//r) x (w//r)` array whose cells are
      copied one at a time from every `r`-th row and column. No averaging. */
  method Downsample(hm: Grid, w: nat, r: int) returns (out: array2<real>)
    requires IsGrid(hm, |hm|, w) && r > 1
    ensures fresh(out)
    ensures out.Length0 == |hm| / r && out.Length1 == w / r
    ensures Snapshot(out) == Resample(hm, w, r)
  {
    var nh, nw := |hm| / r, w / r;
    out := new real[nh, nw]((_, _) => 0.0);
    ResampleShape(hm, w, r);
    ghost var s := Resample(hm, w, r);
    var y := 0;
    while y < nh
      invariant 0 <= y <= nh
      invariant forall y', x :: 0 <= y' < y && 0 <= x < nw ==> out[y', x] == s[y'][x]
    {
      CopyRow(hm, w, r, out, y);
      y := y + 1;
    }
    SnapshotEqual(out, s);
  }

  /** One pass of the inner loop: row `y` of the output takes every `r`-th cell of
      input row `y*r`; the other rows keep their cells. */
  method CopyRow(hm: Grid, w: nat, r: int, out: array2<real>, y: int)
    requires IsGrid(hm, |hm|, w) && r > 1
    requires out.Length0 == |hm| / r && out.Length1 == w / r && 0 <= y < out.Length0
    modifies out
    ensures forall x :: 0 <= x < out.Length1 ==> out[y, x] == Resample(hm, w, r)[y][x]
    ensures forall y', x :: 0 <= y' < out.Length0 && y' != y && 0 <= x < out.Length1 ==> out[y', x] == old(out[y', x])
  {
    var x := 0;
    while x < out.Length1
      invariant 0 <= x <= out.Length1
      invariant forall x' :: 0 <= x' < x ==> out[y, x'] == Resample(hm, w, r)[y][x']
      invariant forall y', x' :: 0 <= y' < out.Length0 && y' != y && 0 <= x' < out.Length1 ==> out[y', x'] == old(out[y', x'])
    {
      ResampleCell(hm, w, r, y, x);
      out[y, x] := hm[y * r][x * r];
      x := x + 1;
    }
  }

  /** The height map the vertex loop reads: the smoothed map when `smoothing > 1`,
      then its strided sample when `resolution > 1`. */
  function Surface(hm: Grid, blurred: Grid, w: nat, smoothing: int, resolution: int): (g: Grid)
    requires IsGrid(hm, |hm|, w) && IsGrid(blurred, |hm|, w)
    ensures resolution <= 1 ==> IsGrid(g, |hm|, w)
    ensures resolution > 1 ==> IsGrid(g, |hm| / resolution, w / resolution)
  {
    var src := if smoothing > 1 then blurred else hm;
    if resolution > 1 then ResampleShape(src, w, resolution); Resample(src, w, resolution) else src
  }

  /** `create_mesh`: optional smoothing (SciPy's Gaussian filter, whose result
      `blurred` is an input here), optional strided downsampling, the grid surface,
      and its expansion into one STL facet per face. */
  method CreateMesh(hm: Grid, w: nat, scaleZ: real, smoothing: int, resolution: int, blurred: Grid)
    returns (vectors: array<Triangle>)
    requires IsGrid(hm, |hm|, w) && IsGrid(blurred, |hm|, w)
    ensures fresh(vectors)
    ensures var g := Surface(hm, blurred, w, smoothing, resolution);
      var w' := if resolution > 1 then w / resolution else w;
      var faces := GridFaces(|g|, w');
      var vertices := GridVertices(g, w', scaleZ);
      AllInRange(faces, |vertices|) &&
      vectors.Length == |faces| &&
      forall i :: 0 <= i < |faces| ==> vectors[i] == Corners(vertices, faces[i])
  {
    var surface := hm;
    if smoothing > 1 {
      surface := blurred;
    }
    var width := w;
    if resolution > 1 {
      var reduced := Downsample(surface, w, resolution);
      surface, width := Snapshot(reduced), w / resolution;
    }
    var vertices := BuildVertices(surface, width, scaleZ);
    var faces := BuildFaces(|surface|, width);
    GridVerticesAt(surface, width, scaleZ);
    GridFacesWellFormed(|surface|, width);
    vectors := FillVectors(vertices, faces);
  }

  /** With no smoothing, a map normalised into `[0, 1]` and a non-negative scale, every
      vertex height lies in `[0, scaleZ]`, with or without downsampling. */
  lemma SurfaceHeights(hm: Grid, blurred: Grid, w: nat, smoothing: int, resolution: int, scaleZ: real)
    requires IsGrid(hm, |hm|, w) && IsGrid(blurred, |hm|, w)
    requires smoothing <= 1 && scaleZ >= 0.0
    requires forall y, x :: 0 <= y < |hm| && 0 <= x < w ==> 0.0 <= hm[y][x] <= 1.0
    ensures var g := Surface(hm, blurred, w, smoothing, resolution);
      var w' := if resolution > 1 then w / resolution else w;
      forall k :: 0 <= k < |GridVertices(g, w', scaleZ)| ==>
        0.0 <= GridVertices(g, w', scaleZ)[k].z <= scaleZ
  {
    var g := Surface(hm, blurred, w, smoothing, resolution);
    var w' := if resolution > 1 then w / resolution else w;
    if resolution > 1 {
      ResampleShape(hm, w, resolution);
      ResampleRange(hm, w, resolution, 0.0, 1.0);
    }
    GridVerticesHeights(g, w', scaleZ, 0.0, 1.0);
  }

  lemma UsedAt(fs: seq<Face>, k: int, e: Edge)
    requires 0 <= k < |fs| && e in Edges(fs[k])
    ensures EdgeUsed(fs, e)
  {
  }

  /** The six directed edges of the two triangles of grid square `(y, x)`, whose
      top-left corner is grid point `i`. */
  lemma SquareEdges(h: nat, w: nat, y: nat, x: nat)
    requires y < h - 1 && x < w - 1
    ensures var fs, i := GridFaces(h, w), Flat(w, y, x);
      EdgeUsed(fs, Edge(i, i + 1)) && EdgeUsed(fs, Edge(i + 1, i + w)) && EdgeUsed(fs, Edge(i + w, i)) &&
      EdgeUsed(fs, Edge(i + 1, i + w + 1)) && EdgeUsed(fs, Edge(i + w + 1, i + w)) && EdgeUsed(fs, Edge(i + w, i + 1))
  {
    var fs, i, k := GridFaces(h, w), Flat(w, y, x), 2 * Flat(w - 1, y, x);
    GridFacesAt(h, w, y, x);
    UsedAt(fs, k, Edge(i, i + 1));
    UsedAt(fs, k, Edge(i + 1, i + w));
    UsedAt(fs, k, Edge(i + w, i));
    UsedAt(fs, k + 1, Edge(i + 1, i + w + 1));
    UsedAt(fs, k + 1, Edge(i + w + 1, i + w));
    UsedAt(fs, k + 1, Edge(i + w, i + 1));
  }

  /** Every interior edge of the grid surface is run along in both directions (and,
      by `GridConsistent`, once each), so exactly two faces of opposite orientation
      share it. First the diagonal `i+1 -> i+w` of every grid square. */
  lemma GridDiagonalPaired(h: nat, w: nat, y: nat, x: nat)
    requires y < h - 1 && x < w - 1
    ensures var i := Flat(w, y, x);
      EdgeUsed(GridFaces(h, w), Edge(i + 1, i + w)) && EdgeUsed(GridFaces(h, w), Edge(i + w, i + 1))
  {
    SquareEdges(h, w, y, x);
  }

  /** The horizontal edge `i -> i+1` between two rows of squares. */
  lemma GridRowEdgePaired(h: nat, w: nat, y: nat, x: nat)
    requires 0 < y < h - 1 && x < w - 1
    ensures var i := Flat(w, y, x);
      EdgeUsed(GridFaces(h, w), Edge(i, i + 1)) && EdgeUsed(GridFaces(h, w), Edge(i + 1, i))
  {
    var i, j := Flat(w, y, x), Flat(w, y - 1, x);
    SquareEdges(h, w, y, x);
    SquareEdges(h, w, y - 1, x);
    FlatAbove(w, y, x);
    assert Edge(j + w + 1, j + w) == Edge(i + 1, i);
  }

  /** The vertical edge `i -> i+w` between two columns of squares. */
  lemma GridColumnEdgePaired(h: nat, w: nat, y: nat, x: nat)
    requires y < h - 1 && 0 < x < w - 1
    ensures var i := Flat(w, y, x);
      EdgeUsed(GridFaces(h, w), Edge(i, i + w)) && EdgeUsed(GridFaces(h, w), Edge(i + w, i))
  {
    SquareEdges(h, w, y, x);
    SquareEdges(h, w, y, x - 1);
  }

  /** The grid point above `(y, x)` is `w` places earlier. */
  lemma FlatAbove(w: int, y: int, x: int)
    ensures Flat(w, y - 1, x) + w == Flat(w, y, x)
  {
    RowStep(y - 1, w);
  }
}
