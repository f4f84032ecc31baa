/** The extrusion fallback of the image script's object-only mode, taken when the
    marching-cubes library is missing: a top layer of vertices at the height map over
    the selected pixels, a bottom layer at the base height, triangles between
    neighbouring selected pixels on top, the same triangles reversed at the bottom,
    and side quads at the pixels on the selection's contour. Selected pixels are
    numbered in row-major order; that number is a pixel's vertex index on top. */
module Extrusion {
  import opened Mesh
  import opened Tiling
  import opened Heightmaps
  import opened ObjectMode
  import ClosedSolid

  /** How many pixels of the `_ x cols` selection `m` come before `(y, x)` in
      row-major order. */
  function Count(m: Mask, cols: nat, y: nat, x: nat): nat
    requires x <= cols
    decreases y, x
  {
    if x > 0 then Count(m, cols, y, x - 1) + (if MaskAt(m, y, x - 1) then 1 else 0)
    else if y > 0 then Count(m, cols, y - 1, cols)
    else 0
  }

  /** The number of selected pixels of the `rows x cols` selection. */
  function Total(m: Mask, rows: nat, cols: nat): nat
  {
    Count(m, cols, rows, 0)
  }

  /** `vertex_map[y, x]`: the pixel's number when it is selected, -1 otherwise. */
  function Rank(m: Mask, rows: nat, cols: nat, y: int, x: int): int
  {
    if 0 <= y < rows && 0 <= x < cols && MaskAt(m, y, x) then Count(m, cols, y, x) else -1
  }

  /** A cell function that yields one item for a selected pixel and none otherwise. */
  ghost predicate OnePerPixel<T>(m: Mask, q: (int, int) -> seq<T>)
  {
    forall y, x :: |q(y, x)| == if MaskAt(m, y, x) then 1 else 0
  }

  /** The selected pixels themselves, in the loops' order. */
  function Pixel(m: Mask): (int, int) -> seq<(int, int)>
  {
    (y: int, x: int) => if MaskAt(m, y, x) then [(y, x)] else []
  }

  function Selection(m: Mask, rows: nat, cols: nat): seq<(int, int)>
  {
    Tile(rows, cols, Pixel(m))
  }

  /** A tiling with one item per selected pixel has `Count` items before the pixel's
      own. */
  lemma {:induction false} CountPrefix<T>(m: Mask, q: (int, int) -> seq<T>, cols: nat, y: nat, x: nat)
    requires OnePerPixel(m, q) && x <= cols
    ensures |Tile(y, cols, q)| + |TileRow(y, x, q)| == Count(m, cols, y, x)
    decreases y, x
  {
    if x > 0 {
      CountPrefix(m, q, cols, y, x - 1);
      assert |q(y, x - 1)| == if MaskAt(m, y, x - 1) then 1 else 0;
    } else if y > 0 {
      CountPrefix(m, q, cols, y - 1, cols);
    }
  }

  /** A selection with no pixel selected counts none. */
  lemma {:induction false} NoneCounted(m: Mask, cols: nat, y: nat, x: nat)
    requires x <= cols
    requires forall y', x' :: !MaskAt(m, y', x')
    ensures Count(m, cols, y, x) == 0
    decreases y, x
  {
    if x > 0 {
      NoneCounted(m, cols, y, x - 1);
    } else if y > 0 {
      NoneCounted(m, cols, y - 1, cols);
    }
  }

  lemma TotalLength<T>(m: Mask, q: (int, int) -> seq<T>, rows: nat, cols: nat)
    requires OnePerPixel(m, q)
    ensures |Tile(rows, cols, q)| == Total(m, rows, cols)
  {
    CountPrefix(m, q, cols, rows, 0);
  }

  /** Item `Rank(y, x)` of a one-per-pixel tiling is the item of pixel `(y, x)`. */
  lemma RankSlot<T>(m: Mask, q: (int, int) -> seq<T>, rows: nat, cols: nat, y: int, x: int)
    requires OnePerPixel(m, q)
    requires 0 <= y < rows && 0 <= x < cols && MaskAt(m, y, x)
    ensures 0 <= Rank(m, rows, cols, y, x) < Total(m, rows, cols) == |Tile(rows, cols, q)|
    ensures |q(y, x)| == 1 && Tile(rows, cols, q)[Rank(m, rows, cols, y, x)] == q(y, x)[0]
  {
    assert |q(y, x)| == 1;
    CountPrefix(m, q, cols, y, x);
    TotalLength(m, q, rows, cols);
    TileAt(rows, cols, q, y, x, 0);
  }

  /** The numbering is exact: a selected pixel's number lies in `0 .. Total-1`, the
      `k`-th selected pixel in row-major order gets number `k`, and no two selected
      pixels share one; every other pixel is -1. */
  lemma RankBijective(m: Mask, rows: nat, cols: nat, y: int, x: int, y': int, x': int)
    requires 0 <= y < rows && 0 <= x < cols && MaskAt(m, y, x)
    requires 0 <= y' < rows && 0 <= x' < cols && MaskAt(m, y', x')
    ensures 0 <= Rank(m, rows, cols, y, x) < Total(m, rows, cols) == |Selection(m, rows, cols)|
    ensures Selection(m, rows, cols)[Rank(m, rows, cols, y, x)] == (y, x)
    ensures Rank(m, rows, cols, y, x) == Rank(m, rows, cols, y', x') ==> y == y' && x == x'
  {
    RankSlot(m, Pixel(m), rows, cols, y, x);
    RankSlot(m, Pixel(m), rows, cols, y', x');
  }

  // ----- the vertex map -----

  /** The numbering loop over a `-1`-filled `vertex_map`. */
  method VertexMap(mask: Mask, rows: nat, cols: nat) returns (vm: array2<int>, counter: int)
    ensures fresh(vm) && vm.Length0 == rows && vm.Length1 == cols
    ensures forall y, x :: 0 <= y < rows && 0 <= x < cols ==> vm[y, x] == Rank(mask, rows, cols, y, x)
    ensures counter == Total(mask, rows, cols)
  {
    vm := new int[rows, cols]((_, _) => -1);
    counter := 0;
    var i := 0;
    while i < rows
      invariant 0 <= i <= rows
      invariant counter == Count(mask, cols, i, 0)
      invariant forall y, x :: 0 <= y < rows && 0 <= x < cols ==>
        vm[y, x] == if y < i then Rank(mask, rows, cols, y, x) else -1
    {
      var j := 0;
      while j < cols
        invariant 0 <= j <= cols
        invariant counter == Count(mask, cols, i, j)
        invariant forall y, x :: 0 <= y < rows && 0 <= x < cols ==>
          vm[y, x] == if y < i || (y == i && x < j) then Rank(mask, rows, cols, y, x) else -1
      {
        if MaskAt(mask, i, j) {
          vm[i, j] := counter;
          counter := counter + 1;
        }
        j := j + 1;
      }
      i := i + 1;
    }
  }

  // ----- the two vertex layers -----

  /** The top vertex of a selected pixel: `(x, rows-1-y, h)`. */
  function TopPoint(g: Grid, m: Mask, rows: nat): (int, int) -> seq<Vertex>
  {
    (y: int, x: int) => if MaskAt(m, y, x) then [Vertex(x as real, (rows - 1 - y) as real, Sample(g, y, x))] else []
  }

  /** The bottom vertex of a selected pixel: `(x, rows-1-y, base)`. */
  function BottomPoint(m: Mask, rows: nat, base: real): (int, int) -> seq<Vertex>
  {
    (y: int, x: int) => if MaskAt(m, y, x) then [Vertex(x as real, (rows - 1 - y) as real, base)] else []
  }

  method TopVertices(hm: array2<real>, mask: Mask) returns (vs: seq<Vertex>)
    ensures vs == Tile(hm.Length0, hm.Length1, TopPoint(Snapshot(hm), mask, hm.Length0))
  {
    var rows, cols := hm.Length0, hm.Length1;
    ghost var q := TopPoint(Snapshot(hm), mask, rows);
    vs := [];
    var i := 0;
    while i < rows
      invariant 0 <= i <= rows
      invariant vs == Tile(i, cols, q)
    {
      vs := TopRow(hm, mask, i, vs);
      TileStep(i, cols, q);
      i := i + 1;
    }
  }

  /** The inner loop of the top layer: the selected pixels of row `i`, left to
      right, appended to `vs`. */
  method TopRow(hm: array2<real>, mask: Mask, i: int, vs: seq<Vertex>) returns (vs': seq<Vertex>)
    requires 0 <= i < hm.Length0
    ensures vs' == vs + TileRow(i, hm.Length1, TopPoint(Snapshot(hm), mask, hm.Length0))
  {
    var rows, cols := hm.Length0, hm.Length1;
    ghost var g := Snapshot(hm);
    ghost var q := TopPoint(g, mask, rows);
    vs' := vs;
    var j := 0;
    while j < cols
      invariant 0 <= j <= cols
      invariant vs' == vs + TileRow(i, j, q)
    {
      ghost var before := vs';
      assert Sample(g, i, j) == hm[i, j];
      if MaskAt(mask, i, j) {
        vs' := vs' + [Vertex(j as real, (rows - 1 - i) as real, hm[i, j])];
      }
      assert vs' == before + q(i, j);
      AppendStep(before, vs, TileRow(i, j, q), q(i, j));
      TileRowStep(i, j, q);
      j := j + 1;
    }
  }

  method BottomVertices(mask: Mask, rows: nat, cols: nat, base: real) returns (vs: seq<Vertex>)
    ensures vs == Tile(rows, cols, BottomPoint(mask, rows, base))
  {
    ghost var q := BottomPoint(mask, rows, base);
    vs := [];
    var i := 0;
    while i < rows
      invariant 0 <= i <= rows
      invariant vs == Tile(i, cols, q)
    {
      vs := BottomRow(mask, rows, cols, base, i, vs);
      TileStep(i, cols, q);
      i := i + 1;
    }
  }

  /** The inner loop of the bottom layer. */
  method BottomRow(mask: Mask, rows: nat, cols: nat, base: real, i: int, vs: seq<Vertex>) returns (vs': seq<Vertex>)
    ensures vs' == vs + TileRow(i, cols, BottomPoint(mask, rows, base))
  {
    ghost var q := BottomPoint(mask, rows, base);
    vs' := vs;
    var j := 0;
    while j < cols
      invariant 0 <= j <= cols
      invariant vs' == vs + TileRow(i, j, q)
    {
      ghost var before := vs';
      if MaskAt(mask, i, j) {
        vs' := vs' + [Vertex(j as real, (rows - 1 - i) as real, base)];
      }
      assert vs' == before + q(i, j);
      AppendStep(before, vs, TileRow(i, j, q), q(i, j));
      TileRowStep(i, j, q);
      j := j + 1;
    }
  }

  /** Both layers hold one vertex per selected pixel, and the vertex numbered
      `Rank(y, x)` is that pixel's, on top at its height and at the bottom at the
      base. */
  lemma LayersAt(g: Grid, m: Mask, rows: nat, cols: nat, base: real, y: int, x: int)
    requires IsGrid(g, rows, cols)
    requires 0 <= y < rows && 0 <= x < cols && MaskAt(m, y, x)
    ensures var top, bottom := Tile(rows, cols, TopPoint(g, m, rows)), Tile(rows, cols, BottomPoint(m, rows, base));
      var k := Rank(m, rows, cols, y, x);
      |top| == |bottom| == Total(m, rows, cols) && 0 <= k < |top| &&
      top[k] == Vertex(x as real, (rows - 1 - y) as real, g[y][x]) &&
      bottom[k] == Vertex(x as real, (rows - 1 - y) as real, base)
  {
    RankSlot(m, TopPoint(g, m, rows), rows, cols, y, x);
    RankSlot(m, BottomPoint(m, rows, base), rows, cols, y, x);
  }

  // ----- the top and bottom triangles -----

  /** The triangles of one grid square with corner numbers `v1` (top left), `v2` (top
      right), `v3` (bottom left) and `v4` (bottom right): `[v1, v2, v3]` when its
      three corners are selected, `[v2, v4, v3]` likewise. */
  function SquareFaces(v1: int, v2: int, v3: int, v4: int): seq<Face>
  {
    (if v1 >= 0 && v2 >= 0 && v3 >= 0 then [Face(v1, v2, v3)] else []) +
    (if v2 >= 0 && v4 >= 0 && v3 >= 0 then [Face(v2, v4, v3)] else [])
  }

  /** The square whose top-left pixel is `(y, x)`. */
  function TopSquare(m: Mask, rows: nat, cols: nat, y: int, x: int): seq<Face>
  {
    SquareFaces(Rank(m, rows, cols, y, x), Rank(m, rows, cols, y, x + 1),
                Rank(m, rows, cols, y + 1, x), Rank(m, rows, cols, y + 1, x + 1))
  }

  function TopCell(m: Mask, rows: nat, cols: nat): Cells
  {
    (y: int, x: int) => TopSquare(m, rows, cols, y, x)
  }

  function TopFaces(m: Mask, rows: nat, cols: nat): seq<Face>
  {
    Tile(ClosedSolid.Less(rows), ClosedSolid.Less(cols), TopCell(m, rows, cols))
  }

  /** `vm` is the vertex map of `mask`. */
  ghost predicate IsRankMap(vm: array2<int>, mask: Mask)
    reads vm
  {
    forall y, x :: 0 <= y < vm.Length0 && 0 <= x < vm.Length1 ==> vm[y, x] == Rank(mask, vm.Length0, vm.Length1, y, x)
  }

  /** The squares of row `i`. */
  method TopSquareRow(vm: array2<int>, ghost mask: Mask, i: int) returns (faces: seq<Face>)
    requires 0 <= i < vm.Length0 - 1 && IsRankMap(vm, mask)
    ensures faces == TileRow(i, ClosedSolid.Less(vm.Length1), TopCell(mask, vm.Length0, vm.Length1))
  {
    var rows, cols := vm.Length0, vm.Length1;
    ghost var q := TopCell(mask, rows, cols);
    faces := [];
    var j := 0;
    while j < cols - 1
      invariant 0 <= j <= ClosedSolid.Less(cols)
      invariant faces == TileRow(i, j, q)
    {
      var square := TopSquareAt(vm, mask, i, j);
      assert square == q(i, j);
      TileRowStep(i, j, q);
      faces := faces + square;
      j := j + 1;
    }
  }

  /** The loop body: the triangles of the square at `(i, j)`, read off the vertex map. */
  method TopSquareAt(vm: array2<int>, ghost mask: Mask, i: int, j: int) returns (square: seq<Face>)
    requires 0 <= i < vm.Length0 - 1 && 0 <= j < vm.Length1 - 1 && IsRankMap(vm, mask)
    ensures square == TopSquare(mask, vm.Length0, vm.Length1, i, j)
  {
    var v1, v2, v3, v4 := vm[i, j], vm[i, j + 1], vm[i + 1, j], vm[i + 1, j + 1];
    square := [];
    if v1 >= 0 && v2 >= 0 && v3 >= 0 {
      square := square + [Face(v1, v2, v3)];
    }
    if v2 >= 0 && v4 >= 0 && v3 >= 0 {
      square := square + [Face(v2, v4, v3)];
    }
  }

  /** The square loop over the vertex map. */
  method TopFaceList(vm: array2<int>, ghost mask: Mask) returns (faces: seq<Face>)
    requires IsRankMap(vm, mask)
    ensures faces == TopFaces(mask, vm.Length0, vm.Length1)
  {
    var rows, cols := vm.Length0, vm.Length1;
    ghost var q := TopCell(mask, rows, cols);
    faces := [];
    var i := 0;
    while i < rows - 1
      invariant 0 <= i <= ClosedSolid.Less(rows)
      invariant faces == Tile(i, ClosedSolid.Less(cols), q)
    {
      var row := TopSquareRow(vm, mask, i);
      TileStep(i, ClosedSolid.Less(cols), q);
      faces := faces + row;
      i := i + 1;
    }
    assert i == ClosedSolid.Less(rows);
  }

  /** Every number is -1 or the number of a selected pixel. */
  lemma RankRange(m: Mask, rows: nat, cols: nat, y: int, x: int)
    ensures Rank(m, rows, cols, y, x) == -1 || 0 <= Rank(m, rows, cols, y, x) < Total(m, rows, cols)
  {
    if Rank(m, rows, cols, y, x) != -1 {
      RankBijective(m, rows, cols, y, x, y, x);
    }
  }

  lemma RankDistinct(m: Mask, rows: nat, cols: nat, y: int, x: int, y': int, x': int)
    requires y != y' || x != x'
    ensures Rank(m, rows, cols, y, x) >= 0 && Rank(m, rows, cols, y', x') >= 0 ==>
      Rank(m, rows, cols, y, x) != Rank(m, rows, cols, y', x')
  {
    if Rank(m, rows, cols, y, x) >= 0 && Rank(m, rows, cols, y', x') >= 0 {
      RankBijective(m, rows, cols, y, x, y', x');
    }
  }

  /** A square of distinct numbers below `n` yields proper triangles over `n`
      vertices. */
  lemma SquareWellFormed(v1: int, v2: int, v3: int, v4: int, n: int)
    requires v1 == -1 || 0 <= v1 < n
    requires v2 == -1 || 0 <= v2 < n
    requires v3 == -1 || 0 <= v3 < n
    requires v4 == -1 || 0 <= v4 < n
    requires v1 >= 0 && v2 >= 0 ==> v1 != v2
    requires v1 >= 0 && v3 >= 0 ==> v1 != v3
    requires v2 >= 0 && v3 >= 0 ==> v2 != v3
    requires v2 >= 0 && v4 >= 0 ==> v2 != v4
    requires v3 >= 0 && v4 >= 0 ==> v3 != v4
    ensures AllInRange(SquareFaces(v1, v2, v3, v4), n) && AllNonDegenerate(SquareFaces(v1, v2, v3, v4))
  {
  }

  /** A square's triangles use the numbers of distinct selected pixels. */
  lemma TopCellWellFormed(m: Mask, rows: nat, cols: nat, y: int, x: int)
    ensures var n := Total(m, rows, cols);
      AllInRange(TopCell(m, rows, cols)(y, x), n) && AllNonDegenerate(TopCell(m, rows, cols)(y, x))
  {
    RankRange(m, rows, cols, y, x);
    RankRange(m, rows, cols, y, x + 1);
    RankRange(m, rows, cols, y + 1, x);
    RankRange(m, rows, cols, y + 1, x + 1);
    RankDistinct(m, rows, cols, y, x, y, x + 1);
    RankDistinct(m, rows, cols, y, x, y + 1, x);
    RankDistinct(m, rows, cols, y, x + 1, y + 1, x);
    RankDistinct(m, rows, cols, y, x + 1, y + 1, x + 1);
    RankDistinct(m, rows, cols, y + 1, x, y + 1, x + 1);
    SquareWellFormed(Rank(m, rows, cols, y, x), Rank(m, rows, cols, y, x + 1),
                     Rank(m, rows, cols, y + 1, x), Rank(m, rows, cols, y + 1, x + 1), Total(m, rows, cols));
  }

  lemma TopFacesWellFormed(m: Mask, rows: nat, cols: nat)
    ensures var n := Total(m, rows, cols);
      AllInRange(TopFaces(m, rows, cols), n) && AllNonDegenerate(TopFaces(m, rows, cols))
  {
    forall y, x | 0 <= y < ClosedSolid.Less(rows) && 0 <= x < ClosedSolid.Less(cols)
      ensures AllInRange(TopCell(m, rows, cols)(y, x), Total(m, rows, cols))
      ensures AllNonDegenerate(TopCell(m, rows, cols)(y, x))
    {
      TopCellWellFormed(m, rows, cols, y, x);
    }
    TileWellFormed(ClosedSolid.Less(rows), ClosedSolid.Less(cols), TopCell(m, rows, cols), Total(m, rows, cols));
  }

  /** The bottom twin of a top triangle: shifted into the bottom layer with its second
      and third corners swapped. */
  function Underside(f: Face, n: int): Face
  {
    Face(f.a + n, f.c + n, f.b + n)
  }

  function BottomFaces(top: seq<Face>, n: int): (r: seq<Face>)
    ensures |r| == |top|
  {
    seq(|top|, k requires 0 <= k < |top| => Underside(top[k], n))
  }

  /** The loop over the top triangles. */
  method BottomFaceList(top: seq<Face>, n: int) returns (bottom: seq<Face>)
    ensures bottom == BottomFaces(top, n)
  {
    bottom := [];
    var k := 0;
    while k < |top|
      invariant 0 <= k <= |top|
      invariant bottom == BottomFaces(top[..k], n)
    {
      var face := top[k];
      bottom := bottom + [Face(face.a + n, face.c + n, face.b + n)];
      assert top[..k + 1] == top[..k] + [top[k]];
      k := k + 1;
    }
    assert top[..|top|] == top;
  }

  /** Each bottom triangle is its top twin moved into the bottom layer and run the
      other way round: it stays proper, and every directed edge of the twin appears
      reversed. */
  lemma UndersideMirrors(top: seq<Face>, n: int)
    requires AllInRange(top, n) && AllNonDegenerate(top)
    ensures forall k :: 0 <= k < |top| ==> InBlock(BottomFaces(top, n)[k], n, 2 * n)
    ensures AllNonDegenerate(BottomFaces(top, n))
    ensures forall k :: 0 <= k < |top| ==>
      Edges(BottomFaces(top, n)[k]) == set e | e in Edges(top[k]) :: Edge(e.to + n, e.from + n)
  {
    forall k | 0 <= k < |top|
      ensures Edges(BottomFaces(top, n)[k]) == set e | e in Edges(top[k]) :: Edge(e.to + n, e.from + n)
    {
      var f := top[k];
      assert Edges(f) == {Edge(f.a, f.b), Edge(f.b, f.c), Edge(f.c, f.a)};
    }
  }

  // ----- the side quads -----

  /** A pixel of the contour: selected, but gone from the eroded selection. */
  predicate Contour(m: Mask, eroded: Mask, y: int, x: int)
  {
    MaskAt(m, y, x) && !MaskAt(eroded, y, x)
  }

  /** The quad between a contour pixel (top number `vt`) and its right neighbour
      (top number `vr`); bottom numbers are `n` higher. */
  function RightQuad(vt: int, vr: int, n: int): seq<Face>
  {
    [Face(vt, vt + n, vr), Face(vt + n, vr + n, vr)]
  }

  /** The quad between a contour pixel and the neighbour below it (top number `vd`). */
  function DownQuad(vt: int, vd: int, n: int): seq<Face>
  {
    [Face(vt, vd, vt + n), Face(vt + n, vd, vd + n)]
  }

  /** The side faces of pixel `(y, x)`: for a contour pixel, a quad towards its right
      neighbour and one towards the neighbour below, each when that neighbour is
      selected; nothing for any other pixel. */
  function SideQuads(m: Mask, eroded: Mask, rows: nat, cols: nat, n: int, y: int, x: int): seq<Face>
  {
    if !Contour(m, eroded, y, x) then []
    else
      var vt := Rank(m, rows, cols, y, x);
      (if x < cols - 1 && MaskAt(m, y, x + 1) then RightQuad(vt, Rank(m, rows, cols, y, x + 1), n) else []) +
      (if y < rows - 1 && MaskAt(m, y + 1, x) then DownQuad(vt, Rank(m, rows, cols, y + 1, x), n) else [])
  }

  function SideCell(m: Mask, eroded: Mask, rows: nat, cols: nat, n: int): Cells
  {
    (y: int, x: int) => SideQuads(m, eroded, rows, cols, n, y, x)
  }

  function SideFaces(m: Mask, eroded: Mask, rows: nat, cols: nat): seq<Face>
  {
    Tile(rows, cols, SideCell(m, eroded, rows, cols, Total(m, rows, cols)))
  }

  /** The contour pixels of row `i`. */
  method SideRow(vm: array2<int>, mask: Mask, eroded: Mask, n: int, i: int) returns (faces: seq<Face>)
    requires 0 <= i < vm.Length0 && IsRankMap(vm, mask)
    ensures faces == TileRow(i, vm.Length1, SideCell(mask, eroded, vm.Length0, vm.Length1, n))
  {
    var rows, cols := vm.Length0, vm.Length1;
    ghost var q := SideCell(mask, eroded, rows, cols, n);
    faces := [];
    var j := 0;
    while j < cols
      invariant 0 <= j <= cols
      invariant faces == TileRow(i, j, q)
    {
      var quads := SidePixel(vm, mask, eroded, n, i, j);
      assert quads == q(i, j);
      TileRowStep(i, j, q);
      faces := faces + quads;
      j := j + 1;
    }
  }

  /** The loop body: the side quads of pixel `(i, j)`, read off the vertex map. */
  method SidePixel(vm: array2<int>, mask: Mask, eroded: Mask, n: int, i: int, j: int) returns (quads: seq<Face>)
    requires 0 <= i < vm.Length0 && 0 <= j < vm.Length1 && IsRankMap(vm, mask)
    ensures quads == SideQuads(mask, eroded, vm.Length0, vm.Length1, n, i, j)
  {
    var rows, cols := vm.Length0, vm.Length1;
    quads := [];
    if MaskAt(mask, i, j) && !MaskAt(eroded, i, j) {
      var vTop := vm[i, j];
      var vBottom := vTop + n;
      if j < cols - 1 && MaskAt(mask, i, j + 1) {
        var vTopRight := vm[i, j + 1];
        var vBottomRight := vTopRight + n;
        quads := quads + [Face(vTop, vBottom, vTopRight), Face(vBottom, vBottomRight, vTopRight)];
      }
      if i < rows - 1 && MaskAt(mask, i + 1, j) {
        var vTopDown := vm[i + 1, j];
        var vBottomDown := vTopDown + n;
        quads := quads + [Face(vTop, vTopDown, vBottom), Face(vBottom, vTopDown, vBottomDown)];
      }
    }
  }

  /** The contour loop over the vertex map. */
  method SideFaceList(vm: array2<int>, mask: Mask, eroded: Mask, n: int) returns (faces: seq<Face>)
    requires IsRankMap(vm, mask) && n == Total(mask, vm.Length0, vm.Length1)
    ensures faces == SideFaces(mask, eroded, vm.Length0, vm.Length1)
  {
    var rows, cols := vm.Length0, vm.Length1;
    ghost var q := SideCell(mask, eroded, rows, cols, n);
    faces := [];
    var i := 0;
    while i < rows
      invariant 0 <= i <= rows
      invariant faces == Tile(i, cols, q)
    {
      var row := SideRow(vm, mask, eroded, n, i);
      TileStep(i, cols, q);
      faces := faces + row;
      i := i + 1;
    }
  }

  lemma WellFormedConcat(xs: seq<Face>, ys: seq<Face>, n: int)
    requires AllInRange(xs, n) && AllNonDegenerate(xs) && AllInRange(ys, n) && AllNonDegenerate(ys)
    ensures AllInRange(xs + ys, n) && AllNonDegenerate(xs + ys)
  {
    forall k | 0 <= k < |xs + ys|
      ensures InRange((xs + ys)[k], n) && NonDegenerate((xs + ys)[k])
    {
      if k >= |xs| {
        assert (xs + ys)[k] == ys[k - |xs|];
      }
    }
  }

  /** A quad joins a pixel's top and bottom vertices to its neighbour's, all four
      distinct and numbered below `2n`. */
  lemma SideCellWellFormed(m: Mask, eroded: Mask, rows: nat, cols: nat, y: int, x: int)
    requires 0 <= y < rows && 0 <= x < cols
    ensures var n := Total(m, rows, cols); var q := SideCell(m, eroded, rows, cols, n);
      AllInRange(q(y, x), 2 * n) && AllNonDegenerate(q(y, x))
  {
    var n := Total(m, rows, cols);
    if Contour(m, eroded, y, x) {
      var vt := Rank(m, rows, cols, y, x);
      RankBijective(m, rows, cols, y, x, y, x);
      var right, down := [], [];
      if x < cols - 1 && MaskAt(m, y, x + 1) {
        RankBijective(m, rows, cols, y, x + 1, y, x);
        right := RightQuad(vt, Rank(m, rows, cols, y, x + 1), n);
        QuadsWellFormed(vt, Rank(m, rows, cols, y, x + 1), n);
      }
      if y < rows - 1 && MaskAt(m, y + 1, x) {
        RankBijective(m, rows, cols, y + 1, x, y, x);
        down := DownQuad(vt, Rank(m, rows, cols, y + 1, x), n);
        QuadsWellFormed(vt, Rank(m, rows, cols, y + 1, x), n);
      }
      WellFormedConcat(right, down, 2 * n);
      assert SideQuads(m, eroded, rows, cols, n, y, x) == right + down;
    }
  }

  /** Both quads between two distinct top vertices below `n` are proper triangles
      over the `2n` vertices. */
  lemma QuadsWellFormed(vt: int, v: int, n: int)
    requires 0 <= vt < n && 0 <= v < n && vt != v
    ensures AllInRange(RightQuad(vt, v, n), 2 * n) && AllNonDegenerate(RightQuad(vt, v, n))
    ensures AllInRange(DownQuad(vt, v, n), 2 * n) && AllNonDegenerate(DownQuad(vt, v, n))
  {
  }

  lemma SideFacesWellFormed(m: Mask, eroded: Mask, rows: nat, cols: nat)
    ensures var n := Total(m, rows, cols);
      AllInRange(SideFaces(m, eroded, rows, cols), 2 * n) && AllNonDegenerate(SideFaces(m, eroded, rows, cols))
  {
    var n := Total(m, rows, cols);
    forall y, x | 0 <= y < rows && 0 <= x < cols
      ensures AllInRange(SideCell(m, eroded, rows, cols, n)(y, x), 2 * n)
      ensures AllNonDegenerate(SideCell(m, eroded, rows, cols, n)(y, x))
    {
      SideCellWellFormed(m, eroded, rows, cols, y, x);
    }
    TileWellFormed(rows, cols, SideCell(m, eroded, rows, cols, n), 2 * n);
  }

  // ----- the whole extrusion -----

  function ExtrusionVertices(g: Grid, m: Mask, rows: nat, cols: nat, base: real): seq<Vertex>
  {
    Tile(rows, cols, TopPoint(g, m, rows)) + Tile(rows, cols, BottomPoint(m, rows, base))
  }

  function ExtrusionFaces(m: Mask, eroded: Mask, rows: nat, cols: nat): seq<Face>
  {
    var top := TopFaces(m, rows, cols);
    top + BottomFaces(top, Total(m, rows, cols)) + SideFaces(m, eroded, rows, cols)
  }

  /** The extrusion step: both vertex layers, the vertex map, then the top, bottom and
      side faces. `eroded` is the library's erosion of the selection by a 2x2 block. */
  method Extrude(hm: array2<real>, mask: Mask, eroded: Mask, base: real) returns (vertices: seq<Vertex>, faces: seq<Face>)
    ensures vertices == ExtrusionVertices(Snapshot(hm), mask, hm.Length0, hm.Length1, base)
    ensures faces == ExtrusionFaces(mask, eroded, hm.Length0, hm.Length1)
  {
    var rows, cols := hm.Length0, hm.Length1;
    var top := TopVertices(hm, mask);
    var bottom := BottomVertices(mask, rows, cols, base);
    vertices := top + bottom;
    var vm, counter := VertexMap(mask, rows, cols);
    assert IsRankMap(vm, mask);
    TotalLength(mask, TopPoint(Snapshot(hm), mask, rows), rows, cols);
    var n := |top|;
    var topFaces := TopFaceList(vm, mask);
    var bottomFaces := BottomFaceList(topFaces, n);
    var sideFaces := SideFaceList(vm, mask, eroded, n);
    faces := topFaces + bottomFaces + sideFaces;
  }

  /** The extruded mesh has one top and one bottom vertex per selected pixel, and its
      faces are proper triangles over them: top triangles use only the top layer,
      bottom triangles only the bottom layer. */
  lemma ExtrusionWellFormed(g: Grid, m: Mask, eroded: Mask, rows: nat, cols: nat, base: real)
    requires IsGrid(g, rows, cols)
    ensures var n := Total(m, rows, cols); var fs := ExtrusionFaces(m, eroded, rows, cols);
      var top := TopFaces(m, rows, cols);
      |ExtrusionVertices(g, m, rows, cols, base)| == 2 * n &&
      AllInRange(fs, 2 * n) && AllNonDegenerate(fs) &&
      (forall k :: 0 <= k < |top| ==> InBlock(fs[k], 0, n)) &&
      (forall k :: |top| <= k < 2 * |top| ==> InBlock(fs[k], n, 2 * n))
  {
    var n := Total(m, rows, cols);
    TotalLength(m, TopPoint(g, m, rows), rows, cols);
    TotalLength(m, BottomPoint(m, rows, base), rows, cols);
    var top := TopFaces(m, rows, cols);
    var bottom := BottomFaces(top, n);
    var sides := SideFaces(m, eroded, rows, cols);
    TopFacesWellFormed(m, rows, cols);
    UndersideMirrors(top, n);
    SideFacesWellFormed(m, eroded, rows, cols);
    ThreeBlocks(top, bottom, sides, n);
  }

  lemma ThreeBlocks(top: seq<Face>, bottom: seq<Face>, sides: seq<Face>, n: int)
    requires |bottom| == |top|
    requires AllInRange(top, n) && AllNonDegenerate(top)
    requires forall k :: 0 <= k < |bottom| ==> InBlock(bottom[k], n, 2 * n)
    requires AllNonDegenerate(bottom)
    requires AllInRange(sides, 2 * n) && AllNonDegenerate(sides)
    ensures var fs := top + bottom + sides;
      AllInRange(fs, 2 * n) && AllNonDegenerate(fs) &&
      (forall k :: 0 <= k < |top| ==> InBlock(fs[k], 0, n)) &&
      (forall k :: |top| <= k < 2 * |top| ==> InBlock(fs[k], n, 2 * n))
  {
    var fs := top + bottom + sides;
    forall k | 0 <= k < |fs|
      ensures InRange(fs[k], 2 * n) && NonDegenerate(fs[k])
      ensures k < |top| ==> InBlock(fs[k], 0, n)
      ensures |top| <= k < 2 * |top| ==> InBlock(fs[k], n, 2 * n)
    {
      if k < |top| {
        assert fs[k] == top[k];
      } else if k < 2 * |top| {
        assert fs[k] == bottom[k - |top|];
      } else {
        assert fs[k] == sides[k - 2 * |top|];
      }
    }
  }
}
