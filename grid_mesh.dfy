/** The grid surface shared by the height-map builders: one vertex per cell in
    row-major order, and the loops that emit the vertex and face lists. */
module GridMesh {
  import opened Mesh
  import opened Tiling
  import opened Heightmaps

  /** The vertex of cell `(y, x)`: `(x, h-1-y, g[y][x] * scaleZ)`; rows are flipped so
      that the first image row ends up at the top of the model. */
  function GridPoint(g: Grid, scaleZ: real, y: int, x: int): seq<Vertex>
  {
    if 0 <= y < |g| && 0 <= x < |g[y]|
    then [Vertex(x as real, (|g| - 1 - y) as real, g[y][x] * scaleZ)]
    else []
  }

  function LiftCell(g: Grid, scaleZ: real): (int, int) -> seq<Vertex>
  {
    (y: int, x: int) => GridPoint(g, scaleZ, y, x)
  }

  /** The vertex list of the grid surface over `g`, in row-major order. */
  function GridVertices(g: Grid, w: nat, scaleZ: real): seq<Vertex>
  {
    Tile(|g|, w, LiftCell(g, scaleZ))
  }

  /** In a tiling of one-element cells, cell `(y, x)` sits at its flat index. */
  lemma SingleSlots<T>(rows: nat, cols: nat, q: (int, int) -> seq<T>)
    requires forall y, x :: 0 <= y < rows && 0 <= x < cols ==> |q(y, x)| == 1
    ensures |Tile(rows, cols, q)| == rows * cols
    ensures forall y, x :: 0 <= y < rows && 0 <= x < cols ==>
      0 <= Flat(cols, y, x) < rows * cols && Tile(rows, cols, q)[Flat(cols, y, x)] == q(y, x)[0]
  {
    TileLength(rows, cols, q, 1);
    forall y, x | 0 <= y < rows && 0 <= x < cols
      ensures 0 <= Flat(cols, y, x) < rows * cols && Tile(rows, cols, q)[Flat(cols, y, x)] == q(y, x)[0]
    {
      TileAt(rows, cols, q, y, x, 0);
      TileLength(y, cols, q, 1);
      TileRowLength(y, x, q, 1);
      FlatBounds(cols, rows, y, x);
    }
  }

  lemma LiftCellsSingle(g: Grid, w: nat, scaleZ: real)
    requires IsGrid(g, |g|, w)
    ensures forall y, x :: 0 <= y < |g| && 0 <= x < w ==> |LiftCell(g, scaleZ)(y, x)| == 1
  {
  }

  /** There are `h*w` vertices, and vertex `y*w + x` is `(x, h-1-y, g[y][x] * scaleZ)`. */
  lemma GridVerticesAt(g: Grid, w: nat, scaleZ: real)
    requires IsGrid(g, |g|, w)
    ensures |GridVertices(g, w, scaleZ)| == |g| * w
    ensures forall y, x :: 0 <= y < |g| && 0 <= x < w ==>
      0 <= Flat(w, y, x) < |g| * w &&
      GridVertices(g, w, scaleZ)[Flat(w, y, x)] == Vertex(x as real, (|g| - 1 - y) as real, g[y][x] * scaleZ)
  {
    LiftCellsSingle(g, w, scaleZ);
    SingleSlots(|g|, w, LiftCell(g, scaleZ));
  }

  /** Every vertex height lies between `lo * scaleZ` and `hi * scaleZ` when every cell
      lies between `lo` and `hi` and the scale is not negative. */
  lemma GridVerticesHeights(g: Grid, w: nat, scaleZ: real, lo: real, hi: real)
    requires IsGrid(g, |g|, w) && scaleZ >= 0.0
    requires forall y, x :: 0 <= y < |g| && 0 <= x < w ==> lo <= g[y][x] <= hi
    ensures forall k :: 0 <= k < |GridVertices(g, w, scaleZ)| ==>
      lo * scaleZ <= GridVertices(g, w, scaleZ)[k].z <= hi * scaleZ
  {
    forall k | 0 <= k < |GridVertices(g, w, scaleZ)| {
      VertexHeightBetween(g, w, scaleZ, lo, hi, k);
    }
  }

  lemma VertexHeightBetween(g: Grid, w: nat, scaleZ: real, lo: real, hi: real, k: int)
    requires IsGrid(g, |g|, w) && scaleZ >= 0.0
    requires forall y, x :: 0 <= y < |g| && 0 <= x < w ==> lo <= g[y][x] <= hi
    requires 0 <= k < |GridVertices(g, w, scaleZ)|
    ensures lo * scaleZ <= GridVertices(g, w, scaleZ)[k].z <= hi * scaleZ
  {
    var v := GridVertices(g, w, scaleZ)[k];
    var y, x := TileOwner(|g|, w, LiftCell(g, scaleZ), v);
    assert v.z == g[y][x] * scaleZ;
    ScaleBetween(lo, g[y][x], hi, scaleZ);
  }

  lemma ScaleBetween(lo: real, v: real, hi: real, s: real)
    requires lo <= v <= hi && s >= 0.0
    ensures lo * s <= v * s <= hi * s
  {
  }

  /** The vertex loop: `x` inner, `y` outer, one vertex per cell. */
  method BuildVertices(g: Grid, w: nat, scaleZ: real) returns (vertices: seq<Vertex>)
    requires IsGrid(g, |g|, w)
    ensures vertices == GridVertices(g, w, scaleZ)
  {
    ghost var q := LiftCell(g, scaleZ);
    vertices := [];
    var y := 0;
    while y < |g|
      invariant 0 <= y <= |g|
      invariant vertices == Tile(y, w, q)
    {
      vertices := LiftRow(g, w, scaleZ, y, vertices);
      TileStep(y, w, q);
      y := y + 1;
    }
  }

  /** The inner vertex loop: row `y`, left to right, appended to `vs`. */
  method LiftRow(g: Grid, w: nat, scaleZ: real, y: int, vs: seq<Vertex>) returns (vs': seq<Vertex>)
    requires IsGrid(g, |g|, w) && 0 <= y < |g|
    ensures vs' == vs + TileRow(y, w, LiftCell(g, scaleZ))
  {
    ghost var q := LiftCell(g, scaleZ);
    vs' := vs;
    var x := 0;
    while x < w
      invariant 0 <= x <= w
      invariant vs' == vs + TileRow(y, x, q)
    {
      var z := g[y][x] * scaleZ;
      LiftRowStep(g, scaleZ, y, x);
      AppendStep(vs', vs, TileRow(y, x, q), [Vertex(x as real, (|g| - 1 - y) as real, z)]);
      vs' := vs' + [Vertex(x as real, (|g| - 1 - y) as real, z)];
      x := x + 1;
    }
  }

  lemma LiftRowStep(g: Grid, scaleZ: real, y: int, x: nat)
    requires 0 <= y < |g| && x < |g[y]|
    ensures TileRow(y, x + 1, LiftCell(g, scaleZ)) ==
      TileRow(y, x, LiftCell(g, scaleZ)) + [Vertex(x as real, (|g| - 1 - y) as real, g[y][x] * scaleZ)]
  {
    var q := LiftCell(g, scaleZ);
    assert q(y, x) == [Vertex(x as real, (|g| - 1 - y) as real, g[y][x] * scaleZ)];
    assert TileRow(y, x + 1, q) == TileRow(y, x, q) + q(y, x);
  }

  lemma GridRowStep(w: int, y: int, x: nat)
    ensures var i := y * w + x;
      TileRow(y, x + 1, GridCell(w)) ==
      TileRow(y, x, GridCell(w)) + [Face(i, i + 1, i + w), Face(i + 1, i + w + 1, i + w)]
  {
    GridCellShape(w, y, x);
  }

  /** The face loop: for every grid square with top-left corner `i = y*w + x`, the
      triangles `[i, i+1, i+w]` and `[i+1, i+w+1, i+w]`. */
  method BuildFaces(h: nat, w: nat) returns (faces: seq<Face>)
    ensures faces == GridFaces(h, w)
  {
    faces := [];
    if h == 0 || w == 0 {
      return;
    }
    ghost var q := GridCell(w);
    var y := 0;
    while y < h - 1
      invariant 0 <= y <= h - 1
      invariant faces == Tile(y, w - 1, q)
    {
      faces := SquareRow(w, y, faces);
      TileStep(y, w - 1, q);
      y := y + 1;
    }
  }

  /** The inner face loop: the squares of row `y`, left to right, appended to `fs`. */
  method SquareRow(w: nat, y: int, fs: seq<Face>) returns (fs': seq<Face>)
    requires w >= 1
    ensures fs' == fs + TileRow(y, w - 1, GridCell(w))
  {
    ghost var q := GridCell(w);
    fs' := fs;
    var x := 0;
    while x < w - 1
      invariant 0 <= x <= w - 1
      invariant fs' == fs + TileRow(y, x, q)
    {
      var i := y * w + x;
      GridRowStep(w, y, x);
      AppendStep(fs', fs, TileRow(y, x, q), [Face(i, i + 1, i + w), Face(i + 1, i + w + 1, i + w)]);
      fs' := fs' + [Face(i, i + 1, i + w), Face(i + 1, i + w + 1, i + w)];
      x := x + 1;
    }
  }
}
