/** The closed solid both image converters build from a height map of `r x c` cells:
    a top surface over the map, a flat bottom at height 0, and four side walls joining
    their outlines. The vertex list holds the `r*c` top points, then the `r*c` bottom
    points, each row after row. The faces are the top surface, the bottom, then the
    front, back, left and right walls, two triangles per grid square or per wall
    segment.

    Faces are described here by the grid points they join (a `Point` is a row and a
    column on the top or the bottom layer) and placed into the vertex list by `Index`.
    The two surfaces as written are wound against the walls: `SolidFaces` is the
    face list the converters write, and `CorrectedSolidFaces` the same solid with
    every surface triangle reversed, so that it is wound like the walls. */
module ClosedSolid {
  import opened Mesh
  import opened Tiling
  import opened Heightmaps
  import opened GridMesh

  datatype Point = Top(y: int, x: int) | Bottom(y: int, x: int)

  /** A face as three grid points, in winding order. */
  datatype Trio = Trio(a: Point, b: Point, c: Point)

  datatype Part = TopCap | BottomCap | FrontWall | BackWall | LeftWall | RightWall

  /** Face `s` (0 or 1) of cell `(y, x)` of a part; a wall's cells form one row, so
      its `y` is 0 and its `x` runs along the wall. */
  datatype FaceId = FaceId(part: Part, y: int, x: int, s: int)

  /** The length of Python's `range(n - 1)`. */
  function Less(n: int): nat
  {
    if n > 0 then n - 1 else 0
  }

  predicate OnGrid(r: int, c: int, p: Point)
  {
    0 <= p.y < r && 0 <= p.x < c
  }

  /** Position of a point in the vertex list: `y*c + x` on top, `r*c + y*c + x` at the
      bottom. */
  function Index(r: int, c: int, p: Point): int
  {
    match p
    case Top(y, x) => y * c + x
    case Bottom(y, x) => r * c + y * c + x
  }

  function Placed(r: int, c: int, t: Trio): Face
  {
    Face(Index(r, c, t.a), Index(r, c, t.b), Index(r, c, t.c))
  }

  /** The grid points of every face of the corrected solid, with the surfaces wound
      like the walls. */
  function Outline(r: int, c: int, id: FaceId): Trio
  {
    var y, x := id.y, id.x;
    match id.part
    case TopCap =>
      if id.s == 0 then Trio(Top(y, x), Top(y + 1, x), Top(y, x + 1))
      else Trio(Top(y + 1, x), Top(y + 1, x + 1), Top(y, x + 1))
    case BottomCap =>
      if id.s == 0 then Trio(Bottom(y, x), Bottom(y, x + 1), Bottom(y + 1, x))
      else Trio(Bottom(y, x + 1), Bottom(y + 1, x + 1), Bottom(y + 1, x))
    case FrontWall =>
      if id.s == 0 then Trio(Top(0, x), Top(0, x + 1), Bottom(0, x))
      else Trio(Top(0, x + 1), Bottom(0, x + 1), Bottom(0, x))
    case BackWall =>
      if id.s == 0 then Trio(Top(r - 1, x), Bottom(r - 1, x), Top(r - 1, x + 1))
      else Trio(Top(r - 1, x + 1), Bottom(r - 1, x), Bottom(r - 1, x + 1))
    case LeftWall =>
      if id.s == 0 then Trio(Top(x, 0), Bottom(x, 0), Top(x + 1, 0))
      else Trio(Top(x + 1, 0), Bottom(x, 0), Bottom(x + 1, 0))
    case RightWall =>
      if id.s == 0 then Trio(Top(x, c - 1), Top(x + 1, c - 1), Bottom(x, c - 1))
      else Trio(Top(x + 1, c - 1), Bottom(x + 1, c - 1), Bottom(x, c - 1))
  }

  /** The faces that exist: a grid square of a surface, or a segment of a wall. */
  predicate ValidId(r: int, c: int, id: FaceId)
  {
    r >= 1 && c >= 1 && (id.s == 0 || id.s == 1) &&
    match id.part
    case TopCap => 0 <= id.y < r - 1 && 0 <= id.x < c - 1
    case BottomCap => 0 <= id.y < r - 1 && 0 <= id.x < c - 1
    case FrontWall => id.y == 0 && 0 <= id.x < c - 1
    case BackWall => id.y == 0 && 0 <= id.x < c - 1
    case LeftWall => id.y == 0 && 0 <= id.x < r - 1
    case RightWall => id.y == 0 && 0 <= id.x < r - 1
  }

  function PartFace(r: int, c: int, id: FaceId): Face
  {
    Placed(r, c, Outline(r, c, id))
  }

  function PartSquare(r: int, c: int, part: Part, y: int, x: int): seq<Face>
  {
    [PartFace(r, c, FaceId(part, y, x, 0)), PartFace(r, c, FaceId(part, y, x, 1))]
  }

  function PartCell(r: int, c: int, part: Part): Cells
  {
    (y: int, x: int) => PartSquare(r, c, part, y, x)
  }

  /** A grid square of a surface as the loops write it: on top `[i, i+1, i+c]` and
      `[i+c, i+1, i+c+1]` for the corner `i = y*c + x`, and at the bottom the same
      square shifted by `r*c` with the triangles `[i, i+c, i+1]` and `[i+1, i+c, i+c+1]`. */
  function CapSquare(r: int, c: int, part: Part, y: int, x: int): seq<Face>
  {
    if part == TopCap then
      [Placed(r, c, Trio(Top(y, x), Top(y, x + 1), Top(y + 1, x))),
       Placed(r, c, Trio(Top(y + 1, x), Top(y, x + 1), Top(y + 1, x + 1)))]
    else
      [Placed(r, c, Trio(Bottom(y, x), Bottom(y + 1, x), Bottom(y, x + 1))),
       Placed(r, c, Trio(Bottom(y, x + 1), Bottom(y + 1, x), Bottom(y + 1, x + 1)))]
  }

  function CapCell(r: int, c: int, part: Part): Cells
  {
    (y: int, x: int) => CapSquare(r, c, part, y, x)
  }

  function Walls(r: nat, c: nat): seq<Face>
  {
    Tile(1, Less(c), PartCell(r, c, FrontWall)) + Tile(1, Less(c), PartCell(r, c, BackWall)) +
    Tile(1, Less(r), PartCell(r, c, LeftWall)) + Tile(1, Less(r), PartCell(r, c, RightWall))
  }

  /** The faces of the closed solid over an `r x c` map, as the converters write them. */
  function SolidFaces(r: nat, c: nat): seq<Face>
  {
    Tile(Less(r), Less(c), CapCell(r, c, TopCap)) + Tile(Less(r), Less(c), CapCell(r, c, BottomCap)) + Walls(r, c)
  }

  /** The same solid with its two surfaces wound like the walls. */
  function CorrectedSolidFaces(r: nat, c: nat): seq<Face>
  {
    Tile(Less(r), Less(c), PartCell(r, c, TopCap)) + Tile(Less(r), Less(c), PartCell(r, c, BottomCap)) + Walls(r, c)
  }

  /** The vertices: every cell at its height, then every cell at height 0. */
  function SolidVertices(g: Grid, c: nat): seq<Vertex>
  {
    GridVertices(g, c, 1.0) + GridVertices(g, c, 0.0)
  }

  // ----- the builder -----

  /** The two vertex loops: top points at the map's heights, then the bottom points. */
  method BuildSolidVertices(g: Grid, c: nat) returns (vertices: seq<Vertex>)
    requires IsGrid(g, |g|, c)
    ensures vertices == SolidVertices(g, c)
  {
    var top := BuildVertices(g, c, 1.0);
    var bottom := BuildVertices(g, c, 0.0);
    vertices := top + bottom;
  }

  /** A wall is a single row of cells. */
  lemma WallRow(n: nat, q: Cells)
    ensures Tile(1, n, q) == TileRow(0, n, q)
  {
    assert Tile(1, n, q) == Tile(0, n, q) + TileRow(0, n, q);
  }

  lemma TopStep(r: int, c: int, i: int, j: nat)
    ensures TileRow(i, j + 1, CapCell(r, c, TopCap)) == TileRow(i, j, CapCell(r, c, TopCap)) +
      [Face(i * c + j, i * c + (j + 1), (i + 1) * c + j), Face((i + 1) * c + j, i * c + (j + 1), (i + 1) * c + (j + 1))]
  {
  }

  lemma BottomStep(r: int, c: int, i: int, j: nat)
    ensures var t := r * c;
      TileRow(i, j + 1, CapCell(r, c, BottomCap)) == TileRow(i, j, CapCell(r, c, BottomCap)) +
      [Face(t + i * c + j, t + (i + 1) * c + j, t + i * c + (j + 1)),
       Face(t + i * c + (j + 1), t + (i + 1) * c + j, t + (i + 1) * c + (j + 1))]
  {
  }

  lemma FrontStep(r: int, c: int, j: nat)
    ensures var t := r * c;
      TileRow(0, j + 1, PartCell(r, c, FrontWall)) == TileRow(0, j, PartCell(r, c, FrontWall)) +
      [Face(j, j + 1, t + j), Face(j + 1, t + j + 1, t + j)]
  {
  }

  lemma BackStep(r: int, c: int, j: nat)
    ensures var t, v := r * c, (r - 1) * c + j;
      TileRow(0, j + 1, PartCell(r, c, BackWall)) == TileRow(0, j, PartCell(r, c, BackWall)) +
      [Face(v, t + v, v + 1), Face(v + 1, t + v, t + v + 1)]
  {
  }

  lemma LeftStep(r: int, c: int, i: nat)
    ensures var t := r * c;
      TileRow(0, i + 1, PartCell(r, c, LeftWall)) == TileRow(0, i, PartCell(r, c, LeftWall)) +
      [Face(i * c, t + i * c, (i + 1) * c), Face((i + 1) * c, t + i * c, t + (i + 1) * c)]
  {
  }

  lemma RightStep(r: int, c: int, i: nat)
    ensures var t, v, w := r * c, i * c + (c - 1), (i + 1) * c + (c - 1);
      TileRow(0, i + 1, PartCell(r, c, RightWall)) == TileRow(0, i, PartCell(r, c, RightWall)) +
      [Face(v, w, t + v), Face(w, t + w, t + v)]
  {
  }

  /** One row of the top surface loop: two triangles per grid square. */
  method TopRow(r: nat, c: nat, i: int) returns (faces: seq<Face>)
    requires c >= 1
    ensures faces == TileRow(i, c - 1, CapCell(r, c, TopCap))
  {
    faces := [];
    var j := 0;
    while j < c - 1
      invariant 0 <= j <= c - 1
      invariant faces == TileRow(i, j, CapCell(r, c, TopCap))
    {
      TopStep(r, c, i, j);
      var v1, v2, v3 := i * c + j, i * c + (j + 1), (i + 1) * c + j;
      faces := faces + [Face(v1, v2, v3)];
      v1, v2, v3 := (i + 1) * c + j, i * c + (j + 1), (i + 1) * c + (j + 1);
      faces := faces + [Face(v1, v2, v3)];
      j := j + 1;
    }
  }

  /** The top surface loop, row after row. */
  method TopSurface(r: nat, c: nat) returns (faces: seq<Face>)
    requires r >= 1 && c >= 1
    ensures faces == Tile(r - 1, c - 1, CapCell(r, c, TopCap))
  {
    faces := [];
    var i := 0;
    while i < r - 1
      invariant 0 <= i <= r - 1
      invariant faces == Tile(i, c - 1, CapCell(r, c, TopCap))
    {
      var row := TopRow(r, c, i);
      faces := faces + row;
      i := i + 1;
    }
  }

  /** One row of the bottom surface loop, on the second block of `r*c` vertices. */
  method BottomRow(r: nat, c: nat, i: int) returns (faces: seq<Face>)
    requires c >= 1
    ensures faces == TileRow(i, c - 1, CapCell(r, c, BottomCap))
  {
    var t := r * c;
    faces := [];
    var j := 0;
    while j < c - 1
      invariant 0 <= j <= c - 1
      invariant faces == TileRow(i, j, CapCell(r, c, BottomCap))
    {
      BottomStep(r, c, i, j);
      var v1, v2, v3 := t + i * c + j, t + (i + 1) * c + j, t + i * c + (j + 1);
      faces := faces + [Face(v1, v2, v3)];
      v1, v2, v3 := t + i * c + (j + 1), t + (i + 1) * c + j, t + (i + 1) * c + (j + 1);
      faces := faces + [Face(v1, v2, v3)];
      j := j + 1;
    }
  }

  /** The bottom surface loop, row after row. */
  method BottomSurface(r: nat, c: nat) returns (faces: seq<Face>)
    requires r >= 1 && c >= 1
    ensures faces == Tile(r - 1, c - 1, CapCell(r, c, BottomCap))
  {
    faces := [];
    var i := 0;
    while i < r - 1
      invariant 0 <= i <= r - 1
      invariant faces == Tile(i, c - 1, CapCell(r, c, BottomCap))
    {
      var row := BottomRow(r, c, i);
      faces := faces + row;
      i := i + 1;
    }
  }

  /** The front wall loop, along the first row of the map. */
  method FrontWallFaces(r: nat, c: nat) returns (faces: seq<Face>)
    requires r >= 1 && c >= 1
    ensures faces == Tile(1, c - 1, PartCell(r, c, FrontWall))
  {
    var t := r * c;
    faces := [];
    var j := 0;
    while j < c - 1
      invariant 0 <= j <= c - 1
      invariant faces == TileRow(0, j, PartCell(r, c, FrontWall))
    {
      FrontStep(r, c, j);
      faces := faces + [Face(j, j + 1, t + j)];
      faces := faces + [Face(j + 1, t + j + 1, t + j)];
      j := j + 1;
    }
    WallRow(c - 1, PartCell(r, c, FrontWall));
  }

  /** The back wall loop, along the last row. */
  method BackWallFaces(r: nat, c: nat) returns (faces: seq<Face>)
    requires r >= 1 && c >= 1
    ensures faces == Tile(1, c - 1, PartCell(r, c, BackWall))
  {
    var t := r * c;
    faces := [];
    var j := 0;
    while j < c - 1
      invariant 0 <= j <= c - 1
      invariant faces == TileRow(0, j, PartCell(r, c, BackWall))
    {
      BackStep(r, c, j);
      faces := faces + [Face((r - 1) * c + j, t + (r - 1) * c + j, (r - 1) * c + j + 1)];
      faces := faces + [Face((r - 1) * c + j + 1, t + (r - 1) * c + j, t + (r - 1) * c + j + 1)];
      j := j + 1;
    }
    WallRow(c - 1, PartCell(r, c, BackWall));
  }

  /** The left wall loop, down the first column. */
  method LeftWallFaces(r: nat, c: nat) returns (faces: seq<Face>)
    requires r >= 1 && c >= 1
    ensures faces == Tile(1, r - 1, PartCell(r, c, LeftWall))
  {
    var t := r * c;
    faces := [];
    var i := 0;
    while i < r - 1
      invariant 0 <= i <= r - 1
      invariant faces == TileRow(0, i, PartCell(r, c, LeftWall))
    {
      LeftStep(r, c, i);
      faces := faces + [Face(i * c, t + i * c, (i + 1) * c)];
      faces := faces + [Face((i + 1) * c, t + i * c, t + (i + 1) * c)];
      i := i + 1;
    }
    WallRow(r - 1, PartCell(r, c, LeftWall));
  }

  /** The right wall loop, down the last column. */
  method RightWallFaces(r: nat, c: nat) returns (faces: seq<Face>)
    requires r >= 1 && c >= 1
    ensures faces == Tile(1, r - 1, PartCell(r, c, RightWall))
  {
    var t := r * c;
    faces := [];
    var i := 0;
    while i < r - 1
      invariant 0 <= i <= r - 1
      invariant faces == TileRow(0, i, PartCell(r, c, RightWall))
    {
      RightStep(r, c, i);
      faces := faces + [Face(i * c + (c - 1), (i + 1) * c + (c - 1), t + i * c + (c - 1))];
      faces := faces + [Face((i + 1) * c + (c - 1), t + (i + 1) * c + (c - 1), t + i * c + (c - 1))];
      i := i + 1;
    }
    WallRow(r - 1, PartCell(r, c, RightWall));
  }

  /** All faces: the top surface, the bottom, then the walls. */
  method BuildSolidFaces(r: nat, c: nat) returns (faces: seq<Face>)
    requires r >= 1 && c >= 1
    ensures faces == SolidFaces(r, c)
  {
    var top := TopSurface(r, c);
    var bottom := BottomSurface(r, c);
    var front := FrontWallFaces(r, c);
    var back := BackWallFaces(r, c);
    var left := LeftWallFaces(r, c);
    var right := RightWallFaces(r, c);
    faces := top + bottom + (front + back + left + right);
  }

  // ----- what the faces and vertices are -----

  /** Top points take the first `r*c` positions, bottom points the next `r*c`. */
  lemma IndexBounds(r: int, c: int, p: Point)
    requires OnGrid(r, c, p)
    ensures p.Top? ==> 0 <= Index(r, c, p) < r * c
    ensures p.Bottom? ==> r * c <= Index(r, c, p) < 2 * (r * c)
  {
    FlatBounds(c, r, p.y, p.x);
  }

  /** Different grid points have different positions. */
  lemma IndexInjective(r: int, c: int, p: Point, q: Point)
    requires OnGrid(r, c, p) && OnGrid(r, c, q)
    requires Index(r, c, p) == Index(r, c, q)
    ensures p == q
  {
    IndexBounds(r, c, p);
    IndexBounds(r, c, q);
    if p.Top? == q.Top? {
      FlatInjective(c, p.y, p.x, q.y, q.x);
    }
  }

  /** The three points of an existing face lie on the grid and are distinct. */
  lemma OutlineOnGrid(r: int, c: int, id: FaceId)
    requires ValidId(r, c, id)
    ensures var t := Outline(r, c, id);
      OnGrid(r, c, t.a) && OnGrid(r, c, t.b) && OnGrid(r, c, t.c) &&
      t.a != t.b && t.b != t.c && t.a != t.c
  {
  }

  /** A face is a proper triangle of the solid's `2*r*c` vertices; a top-surface face
      uses only top points and a bottom-surface face only bottom points. */
  lemma PartFaceShape(r: int, c: int, id: FaceId)
    requires ValidId(r, c, id)
    ensures InRange(PartFace(r, c, id), 2 * (r * c)) && NonDegenerate(PartFace(r, c, id))
    ensures id.part == TopCap ==> InBlock(PartFace(r, c, id), 0, r * c)
    ensures id.part == BottomCap ==> InBlock(PartFace(r, c, id), r * c, 2 * (r * c))
  {
    var t := Outline(r, c, id);
    OutlineOnGrid(r, c, id);
    IndexBounds(r, c, t.a);
    IndexBounds(r, c, t.b);
    IndexBounds(r, c, t.c);
    if Index(r, c, t.a) == Index(r, c, t.b) {
      IndexInjective(r, c, t.a, t.b);
    }
    if Index(r, c, t.b) == Index(r, c, t.c) {
      IndexInjective(r, c, t.b, t.c);
    }
    if Index(r, c, t.a) == Index(r, c, t.c) {
      IndexInjective(r, c, t.a, t.c);
    }
  }

  /** `f` is an existing face of one of the given parts. */
  ghost predicate IsPartFace(r: int, c: int, f: Face, parts: set<Part>)
  {
    exists id :: ValidId(r, c, id) && id.part in parts && f == PartFace(r, c, id)
  }

  /** Every face of `fs` is an existing face of one of the given parts. */
  ghost predicate FromParts(r: int, c: int, fs: seq<Face>, parts: set<Part>)
  {
    forall k :: 0 <= k < |fs| ==> IsPartFace(r, c, fs[k], parts)
  }

  const AllParts: set<Part> := {TopCap, BottomCap, FrontWall, BackWall, LeftWall, RightWall}

  /** The cells a part's loop runs over. */
  predicate Extent(r: int, c: int, part: Part, rows: nat, cols: nat)
  {
    match part
    case TopCap => rows == Less(r) && cols == Less(c)
    case BottomCap => rows == Less(r) && cols == Less(c)
    case FrontWall => rows == 1 && cols == Less(c)
    case BackWall => rows == 1 && cols == Less(c)
    case LeftWall => rows == 1 && cols == Less(r)
    case RightWall => rows == 1 && cols == Less(r)
  }

  lemma TileFromPart(r: int, c: int, part: Part, rows: nat, cols: nat)
    requires r >= 1 && c >= 1 && Extent(r, c, part, rows, cols)
    ensures FromParts(r, c, Tile(rows, cols, PartCell(r, c, part)), {part})
  {
    var fs := Tile(rows, cols, PartCell(r, c, part));
    forall k | 0 <= k < |fs|
      ensures IsPartFace(r, c, fs[k], {part})
    {
      var y, x := TileOwner(rows, cols, PartCell(r, c, part), fs[k]);
      var s := if fs[k] == PartFace(r, c, FaceId(part, y, x, 0)) then 0 else 1;
      assert ValidId(r, c, FaceId(part, y, x, s));
    }
  }

  lemma FromPartsConcat(r: int, c: int, xs: seq<Face>, ys: seq<Face>, p: set<Part>, q: set<Part>)
    requires FromParts(r, c, xs, p) && FromParts(r, c, ys, q)
    ensures FromParts(r, c, xs + ys, p + q)
  {
    forall k | 0 <= k < |xs + ys|
      ensures IsPartFace(r, c, (xs + ys)[k], p + q)
    {
      var f := (xs + ys)[k];
      if k < |xs| {
        assert f == xs[k] && IsPartFace(r, c, xs[k], p);
        var id :| ValidId(r, c, id) && id.part in p && f == PartFace(r, c, id);
        assert id.part in p + q;
      } else {
        assert f == ys[k - |xs|] && IsPartFace(r, c, ys[k - |xs|], q);
        var id :| ValidId(r, c, id) && id.part in q && f == PartFace(r, c, id);
        assert id.part in p + q;
      }
    }
  }

  lemma PartFacesWellFormed(r: int, c: int, fs: seq<Face>, parts: set<Part>)
    requires FromParts(r, c, fs, parts)
    ensures AllInRange(fs, 2 * (r * c)) && AllNonDegenerate(fs)
    ensures parts == {TopCap} ==> forall k :: 0 <= k < |fs| ==> InBlock(fs[k], 0, r * c)
    ensures parts == {BottomCap} ==> forall k :: 0 <= k < |fs| ==> InBlock(fs[k], r * c, 2 * (r * c))
  {
    forall k | 0 <= k < |fs|
      ensures InRange(fs[k], 2 * (r * c)) && NonDegenerate(fs[k])
      ensures parts == {TopCap} ==> InBlock(fs[k], 0, r * c)
      ensures parts == {BottomCap} ==> InBlock(fs[k], r * c, 2 * (r * c))
    {
      assert IsPartFace(r, c, fs[k], parts);
      var id :| ValidId(r, c, id) && id.part in parts && fs[k] == PartFace(r, c, id);
      PartFaceShape(r, c, id);
    }
  }

  lemma SixParts(r: int, c: int, top: seq<Face>, bottom: seq<Face>, front: seq<Face>, back: seq<Face>,
                 left: seq<Face>, right: seq<Face>)
    requires FromParts(r, c, top, {TopCap}) && FromParts(r, c, bottom, {BottomCap})
    requires FromParts(r, c, front, {FrontWall}) && FromParts(r, c, back, {BackWall})
    requires FromParts(r, c, left, {LeftWall}) && FromParts(r, c, right, {RightWall})
    ensures FromParts(r, c, top + bottom + front + back + left + right, AllParts)
  {
    FromPartsConcat(r, c, top, bottom, {TopCap}, {BottomCap});
    FromPartsConcat(r, c, top + bottom, front, {TopCap} + {BottomCap}, {FrontWall});
    FromPartsConcat(r, c, top + bottom + front, back, {TopCap} + {BottomCap} + {FrontWall}, {BackWall});
    FromPartsConcat(r, c, top + bottom + front + back, left,
      {TopCap} + {BottomCap} + {FrontWall} + {BackWall}, {LeftWall});
    FromPartsConcat(r, c, top + bottom + front + back + left, right,
      {TopCap} + {BottomCap} + {FrontWall} + {BackWall} + {LeftWall}, {RightWall});
    assert {TopCap} + {BottomCap} + {FrontWall} + {BackWall} + {LeftWall} + {RightWall} == AllParts;
  }

  /** Every face of the corrected solid belongs to one of the six parts. */
  lemma CorrectedFromParts(r: nat, c: nat)
    requires r >= 1 && c >= 1
    ensures FromParts(r, c, CorrectedSolidFaces(r, c), AllParts)
  {
    TileFromPart(r, c, TopCap, Less(r), Less(c));
    TileFromPart(r, c, BottomCap, Less(r), Less(c));
    TileFromPart(r, c, FrontWall, 1, Less(c));
    TileFromPart(r, c, BackWall, 1, Less(c));
    TileFromPart(r, c, LeftWall, 1, Less(r));
    TileFromPart(r, c, RightWall, 1, Less(r));
    CorrectedSplit(r, c);
    SixParts(r, c, Tile(Less(r), Less(c), PartCell(r, c, TopCap)), Tile(Less(r), Less(c), PartCell(r, c, BottomCap)),
      Tile(1, Less(c), PartCell(r, c, FrontWall)), Tile(1, Less(c), PartCell(r, c, BackWall)),
      Tile(1, Less(r), PartCell(r, c, LeftWall)), Tile(1, Less(r), PartCell(r, c, RightWall)));
  }

  /** The corrected solid is the six parts one after another. */
  lemma CorrectedSplit(r: nat, c: nat)
    ensures CorrectedSolidFaces(r, c) ==
      Tile(Less(r), Less(c), PartCell(r, c, TopCap)) + Tile(Less(r), Less(c), PartCell(r, c, BottomCap)) +
      Tile(1, Less(c), PartCell(r, c, FrontWall)) + Tile(1, Less(c), PartCell(r, c, BackWall)) +
      Tile(1, Less(r), PartCell(r, c, LeftWall)) + Tile(1, Less(r), PartCell(r, c, RightWall))
  {
    ConcatAssoc(Tile(Less(r), Less(c), PartCell(r, c, TopCap)), Tile(Less(r), Less(c), PartCell(r, c, BottomCap)),
      Tile(1, Less(c), PartCell(r, c, FrontWall)), Tile(1, Less(c), PartCell(r, c, BackWall)),
      Tile(1, Less(r), PartCell(r, c, LeftWall)), Tile(1, Less(r), PartCell(r, c, RightWall)));
  }

  lemma ConcatAssoc<T>(a: seq<T>, b: seq<T>, d: seq<T>, e: seq<T>, f: seq<T>, g: seq<T>)
    ensures a + b + (d + e + f + g) == a + b + d + e + f + g
  {
  }

  /** Each surface has two faces per grid square, in either winding. */
  lemma CapLength(r: nat, c: nat, part: Part)
    ensures |Tile(Less(r), Less(c), PartCell(r, c, part))| == 2 * (Less(r) * Less(c))
    ensures |Tile(Less(r), Less(c), CapCell(r, c, part))| == 2 * (Less(r) * Less(c))
  {
    TileLength(Less(r), Less(c), PartCell(r, c, part), 2);
    TileLength(Less(r), Less(c), CapCell(r, c, part), 2);
    Twice(Less(r), Less(c));
  }

  /** Each wall has two faces per segment. */
  lemma WallLength(r: nat, c: nat, part: Part, n: nat)
    ensures |Tile(1, n, PartCell(r, c, part))| == 2 * n
  {
    TileLength(1, n, PartCell(r, c, part), 2);
  }

  /** `4(r-1)(c-1) + 4(c-1) + 4(r-1)` faces: two per grid square on each surface and
      two per segment of each of the four walls. */
  lemma SolidFaceCount(r: nat, c: nat)
    requires r >= 1 && c >= 1
    ensures |SolidFaces(r, c)| == 4 * ((r - 1) * (c - 1)) + 4 * (c - 1) + 4 * (r - 1)
  {
    CapLength(r, c, TopCap);
    CapLength(r, c, BottomCap);
    WallLength(r, c, FrontWall, Less(c));
    WallLength(r, c, BackWall, Less(c));
    WallLength(r, c, LeftWall, Less(r));
    WallLength(r, c, RightWall, Less(r));
    AddUp(|Tile(Less(r), Less(c), CapCell(r, c, TopCap))|, |Tile(Less(r), Less(c), CapCell(r, c, BottomCap))|,
      |Tile(1, Less(c), PartCell(r, c, FrontWall))|, |Tile(1, Less(c), PartCell(r, c, BackWall))|,
      |Tile(1, Less(r), PartCell(r, c, LeftWall))|, |Tile(1, Less(r), PartCell(r, c, RightWall))|, r - 1, c - 1);
  }

  lemma AddUp(top: int, bottom: int, front: int, back: int, left: int, right: int, m: int, n: int)
    requires top == 2 * (m * n) && bottom == 2 * (m * n)
    requires front == 2 * n && back == 2 * n && left == 2 * m && right == 2 * m
    ensures top + bottom + front + back + left + right == 4 * (m * n) + 4 * n + 4 * m
  {
  }

  /** In the corrected solid every face is a proper triangle of the `2*r*c` vertices,
      the top surface over the top block and the bottom surface over the bottom block. */
  lemma CorrectedWellFormed(r: nat, c: nat)
    requires r >= 1 && c >= 1
    ensures var fs, n := CorrectedSolidFaces(r, c), 2 * ((r - 1) * (c - 1));
      AllInRange(fs, 2 * (r * c)) && AllNonDegenerate(fs) &&
      (forall k :: 0 <= k < n ==> k < |fs| && InBlock(fs[k], 0, r * c)) &&
      (forall k :: n <= k < 2 * n ==> k < |fs| && InBlock(fs[k], r * c, 2 * (r * c)))
  {
    CorrectedFromParts(r, c);
    PartFacesWellFormed(r, c, CorrectedSolidFaces(r, c), AllParts);
    CapsInBlock(r, c);
    CapLength(r, c, TopCap);
    CapLength(r, c, BottomCap);
    BlocksOfConcat(Tile(Less(r), Less(c), PartCell(r, c, TopCap)), Tile(Less(r), Less(c), PartCell(r, c, BottomCap)),
      Walls(r, c), 2 * ((r - 1) * (c - 1)), r * c);
  }

  /** The first `n` faces of `top + bottom + rest` come from `top`, the next `n` from
      `bottom`. */
  lemma BlocksOfConcat(top: seq<Face>, bottom: seq<Face>, rest: seq<Face>, n: int, t: int)
    requires |top| == n && |bottom| == n
    requires forall k :: 0 <= k < |top| ==> InBlock(top[k], 0, t)
    requires forall k :: 0 <= k < |bottom| ==> InBlock(bottom[k], t, 2 * t)
    ensures var fs := top + bottom + rest;
      (forall k :: 0 <= k < n ==> k < |fs| && InBlock(fs[k], 0, t)) &&
      (forall k :: n <= k < 2 * n ==> k < |fs| && InBlock(fs[k], t, 2 * t))
  {
    var fs := top + bottom + rest;
    forall k | 0 <= k < 2 * n
      ensures k < n ==> k < |fs| && InBlock(fs[k], 0, t)
      ensures n <= k ==> k < |fs| && InBlock(fs[k], t, 2 * t)
    {
      if k < n {
        assert fs[k] == top[k];
      } else {
        assert fs[k] == bottom[k - n];
      }
    }
  }

  lemma CapsInBlock(r: nat, c: nat)
    requires r >= 1 && c >= 1
    ensures forall k :: 0 <= k < |Tile(Less(r), Less(c), PartCell(r, c, TopCap))| ==>
      InBlock(Tile(Less(r), Less(c), PartCell(r, c, TopCap))[k], 0, r * c)
    ensures forall k :: 0 <= k < |Tile(Less(r), Less(c), PartCell(r, c, BottomCap))| ==>
      InBlock(Tile(Less(r), Less(c), PartCell(r, c, BottomCap))[k], r * c, 2 * (r * c))
  {
    TileFromPart(r, c, TopCap, Less(r), Less(c));
    TileFromPart(r, c, BottomCap, Less(r), Less(c));
    PartFacesWellFormed(r, c, Tile(Less(r), Less(c), PartCell(r, c, TopCap)), {TopCap});
    PartFacesWellFormed(r, c, Tile(Less(r), Less(c), PartCell(r, c, BottomCap)), {BottomCap});
  }

  // ----- the solid as written and the corrected solid -----

  /** A face with its last two corners exchanged: the same triangle, wound the other
      way. */
  function Reversed(f: Face): Face
  {
    Face(f.a, f.c, f.b)
  }

  function ReversedAll(fs: seq<Face>): (gs: seq<Face>)
    ensures |gs| == |fs| && forall k :: 0 <= k < |fs| ==> gs[k] == Reversed(fs[k])
  {
    seq(|fs|, k requires 0 <= k < |fs| => Reversed(fs[k]))
  }

  lemma ReversedConcat(xs: seq<Face>, ys: seq<Face>)
    ensures ReversedAll(xs + ys) == ReversedAll(xs) + ReversedAll(ys)
  {
  }

  lemma {:induction false} ReversedRow(y: int, x: nat, q: Cells, q': Cells)
    requires forall x' :: 0 <= x' < x ==> q'(y, x') == ReversedAll(q(y, x'))
    ensures TileRow(y, x, q') == ReversedAll(TileRow(y, x, q))
  {
    if x > 0 {
      ReversedRow(y, x - 1, q, q');
      ReversedConcat(TileRow(y, x - 1, q), q(y, x - 1));
      TileRowStep(y, x - 1, q);
      TileRowStep(y, x - 1, q');
    }
  }

  lemma {:induction false} ReversedTile(rows: nat, cols: nat, q: Cells, q': Cells)
    requires forall y, x :: 0 <= y < rows && 0 <= x < cols ==> q'(y, x) == ReversedAll(q(y, x))
    ensures Tile(rows, cols, q') == ReversedAll(Tile(rows, cols, q))
  {
    if rows > 0 {
      var above, row := Tile(rows - 1, cols, q), TileRow(rows - 1, cols, q);
      TileStep(rows - 1, cols, q);
      TileStep(rows - 1, cols, q');
      ReversedTile(rows - 1, cols, q, q');
      ReversedRow(rows - 1, cols, q, q');
      ReversedConcat(above, row);
    }
  }

  /** The surfaces as written are the corrected surfaces with every triangle
      reversed; the walls are the same. */
  lemma SurfacesReversed(r: nat, c: nat)
    ensures SolidFaces(r, c) ==
      ReversedAll(Tile(Less(r), Less(c), PartCell(r, c, TopCap))) +
      ReversedAll(Tile(Less(r), Less(c), PartCell(r, c, BottomCap))) + Walls(r, c)
  {
    ReversedTile(Less(r), Less(c), PartCell(r, c, TopCap), CapCell(r, c, TopCap));
    ReversedTile(Less(r), Less(c), PartCell(r, c, BottomCap), CapCell(r, c, BottomCap));
  }

  /** Position `k` of `xs + ys + zs` with `xs` and `ys` reversed. */
  lemma ReversedAt(xs: seq<Face>, ys: seq<Face>, zs: seq<Face>, k: int)
    requires 0 <= k < |xs| + |ys| + |zs|
    ensures var fs, gs := ReversedAll(xs) + ReversedAll(ys) + zs, xs + ys + zs;
      |fs| == |gs| && (k < |xs| + |ys| ==> fs[k] == Reversed(gs[k])) && (k >= |xs| + |ys| ==> fs[k] == gs[k])
  {
    if k < |xs| {
      assert (ReversedAll(xs) + ReversedAll(ys) + zs)[k] == ReversedAll(xs)[k];
      assert (xs + ys + zs)[k] == xs[k];
    } else if k < |xs| + |ys| {
      assert (ReversedAll(xs) + ReversedAll(ys) + zs)[k] == ReversedAll(ys)[k - |xs|];
      assert (xs + ys + zs)[k] == ys[k - |xs|];
    }
  }

  /** A reversed face has the same corners, so the same range, block and properness. */
  lemma ReversedShape(f: Face, n: int, lo: int, hi: int)
    ensures InRange(Reversed(f), n) == InRange(f, n)
    ensures NonDegenerate(Reversed(f)) == NonDegenerate(f)
    ensures InBlock(Reversed(f), lo, hi) == InBlock(f, lo, hi)
  {
  }

  /** Reversing the first two blocks of `xs + ys + zs` keeps every face in range and
      proper, and keeps each block's faces in their vertex blocks. */
  lemma ReversedBlocks(xs: seq<Face>, ys: seq<Face>, zs: seq<Face>, m: int, t: int, u: int)
    requires var gs := xs + ys + zs;
      AllInRange(gs, m) && AllNonDegenerate(gs) &&
      (forall k :: 0 <= k < |xs| ==> k < |gs| && InBlock(gs[k], 0, t)) &&
      (forall k :: |xs| <= k < |xs| + |ys| ==> k < |gs| && InBlock(gs[k], t, u))
    ensures var fs := ReversedAll(xs) + ReversedAll(ys) + zs;
      AllInRange(fs, m) && AllNonDegenerate(fs) &&
      (forall k :: 0 <= k < |xs| ==> k < |fs| && InBlock(fs[k], 0, t)) &&
      (forall k :: |xs| <= k < |xs| + |ys| ==> k < |fs| && InBlock(fs[k], t, u))
  {
    var fs, gs := ReversedAll(xs) + ReversedAll(ys) + zs, xs + ys + zs;
    forall k | 0 <= k < |fs|
      ensures InRange(fs[k], m) && NonDegenerate(fs[k])
      ensures k < |xs| ==> InBlock(fs[k], 0, t)
      ensures |xs| <= k < |xs| + |ys| ==> InBlock(fs[k], t, u)
    {
      ReversedAt(xs, ys, zs, k);
      assert InRange(gs[k], m) && NonDegenerate(gs[k]);
      ReversedShape(gs[k], m, 0, t);
      ReversedShape(gs[k], m, t, u);
    }
  }

  /** Every face of the solid as written is a proper triangle of the `2*r*c`
      vertices; the top surface's faces use only the top block of vertices and the
      bottom surface's only the bottom block. */
  lemma SolidWellFormed(r: nat, c: nat)
    requires r >= 1 && c >= 1
    ensures var fs, n := SolidFaces(r, c), 2 * ((r - 1) * (c - 1));
      AllInRange(fs, 2 * (r * c)) && AllNonDegenerate(fs) &&
      (forall k :: 0 <= k < n ==> k < |fs| && InBlock(fs[k], 0, r * c)) &&
      (forall k :: n <= k < 2 * n ==> k < |fs| && InBlock(fs[k], r * c, 2 * (r * c)))
  {
    var top, bottom := Tile(Less(r), Less(c), PartCell(r, c, TopCap)), Tile(Less(r), Less(c), PartCell(r, c, BottomCap));
    CorrectedWellFormed(r, c);
    CapLength(r, c, TopCap);
    CapLength(r, c, BottomCap);
    ReversedBlocks(top, bottom, Walls(r, c), 2 * (r * c), r * c, 2 * (r * c));
    SurfacesReversed(r, c);
  }

  /** The vertex list: position `Index(Top(y, x))` holds cell `(y, x)` at its height
      and `Index(Bottom(y, x))` the same point at height 0; rows run downward in `y`,
      so row `y` sits at `r - 1 - y`. */
  lemma SolidVertexAt(g: Grid, c: nat, y: int, x: int)
    requires IsGrid(g, |g|, c) && 0 <= y < |g| && 0 <= x < c
    ensures var vs, r := SolidVertices(g, c), |g|;
      var i, j := Index(r, c, Top(y, x)), Index(r, c, Bottom(y, x));
      |vs| == 2 * (r * c) &&
      0 <= i < |vs| && vs[i] == Vertex(x as real, (r - 1 - y) as real, g[y][x]) &&
      0 <= j < |vs| && vs[j] == Vertex(x as real, (r - 1 - y) as real, 0.0)
  {
    GridVerticesAt(g, c, 1.0);
    GridVerticesAt(g, c, 0.0);
    var top := GridVertices(g, c, 1.0);
    var r := |g|;
    assert Index(r, c, Bottom(y, x)) == |top| + Flat(c, y, x);
  }
}
