/** The text relief: the text is drawn black on a white canvas sized from its length
    and the font size, and the grey values become heights. With a base, every pixel
    becomes a point of one grid surface; without one, every dark pixel that has a dark
    4-neighbour becomes a small box standing on height 0. */
module TextRelief {
  import opened Mesh
  import opened Tiling
  import opened ReliefMap
  import opened ObjectMode
  import opened Extrusion
  import opened ImageRelief
  import opened Paths
  import GridMesh

  // ----- the canvas -----

  function CanvasWidth(textLength: nat, fontSize: int): int
  {
    if textLength * fontSize >= 200 then textLength * fontSize else 200
  }

  function CanvasHeight(fontSize: int): int
  {
    if 2 * fontSize >= 100 then 2 * fontSize else 100
  }

  /** The canvas is the larger of one font size per character and 200 pixels wide and
      the larger of two font sizes and 100 pixels high, so it always has room for a
      grid surface of at least 199 x 99 squares. */
  lemma CanvasBounds(textLength: nat, fontSize: int)
    ensures var w, h := CanvasWidth(textLength, fontSize), CanvasHeight(fontSize);
      w >= 200 && w >= textLength * fontSize && (w == 200 || w == textLength * fontSize) &&
      h >= 100 && h >= 2 * fontSize && (h == 100 || h == 2 * fontSize)
  {
  }

  /** Where the text's box is drawn: half the spare room, rounded down, on each axis. */
  function TextOrigin(width: int, height: int, textWidth: int, textHeight: int): (int, int)
  {
    ((width - textWidth) / 2, (height - textHeight) / 2)
  }

  /** The text is centred: on each axis the room after it equals the room before it or
      exceeds it by one pixel (the text may overhang on both sides alike). */
  lemma TextCentred(width: int, height: int, textWidth: int, textHeight: int)
    ensures var (x, y) := TextOrigin(width, height, textWidth, textHeight);
      0 <= (width - textWidth - x) - x <= 1 && 0 <= (height - textHeight - y) - y <= 1
  {
  }

  // ----- the height field -----

  /** Without a base only pixels darker than this count as text. */
  const TextThreshold := 200

  /** The height-field value of grey value `v`: the darkness `255 - v`, or 0 for a
      light pixel when there is no base. */
  function FieldValue(v: int, addBase: bool): int
  {
    if addBase || v < TextThreshold then 255 - v else 0
  }

  function ZOf(v: int, addBase: bool, thickness: real): real
  {
    FieldValue(v, addBase) as real / 255.0 * thickness
  }

  /** Heights run from 0 (white) to the thickness (black); without a base a pixel
      stands above 0 exactly when it is darker than the threshold and the thickness is
      positive, and with a base every pixel keeps its darkness. */
  lemma FieldHeights(v: int, addBase: bool, thickness: real)
    requires 0 <= v <= 255 && thickness >= 0.0
    ensures 0.0 <= ZOf(v, addBase, thickness) <= thickness
    ensures !addBase ==> (ZOf(v, false, thickness) > 0.0 <==> v < TextThreshold && thickness > 0.0)
    ensures addBase ==> FieldValue(v, true) == 255 - v
  {
    var f := FieldValue(v, addBase);
    assert 0 <= f <= 255;
    assert !addBase ==> (f > 0 <==> v < TextThreshold);
    ScaleByte(f, thickness);
    assert ZOf(v, addBase, thickness) == f as real / 255.0 * thickness;
  }

  lemma ScaleByte(f: int, t: real)
    requires 0 <= f <= 255 && t >= 0.0
    ensures 0.0 <= f as real / 255.0 * t <= t
    ensures f as real / 255.0 * t > 0.0 <==> f > 0 && t > 0.0
  {
    var u := f as real / 255.0;
    assert 0.0 <= u <= 1.0;
    assert u * t <= 1.0 * t by { MulMonotone(u, 1.0, t); }
    assert u > 0.0 <==> f > 0;
    if u > 0.0 && t > 0.0 {
      assert u * t > 0.0;
    }
  }

  lemma MulMonotone(a: real, b: real, t: real)
    requires a <= b && t >= 0.0
    ensures a * t <= b * t
  {
  }

  /** The text pixels: those whose height is above 0 when there is no base. */
  function TextMask(px: Pixels, w: nat, thickness: real): Mask
  {
    seq(|px|, y requires 0 <= y < |px| =>
      seq(w, x requires 0 <= x < w => x < |px[y]| && ZOf(px[y][x], false, thickness) > 0.0))
  }

  /** A text pixel inside the `h x w` canvas. */
  predicate TextAt(m: Mask, h: int, w: int, y: int, x: int)
  {
    0 <= y < h && 0 <= x < w && MaskAt(m, y, x)
  }

  /** Some 4-neighbour of `(y, x)` is a text pixel too. */
  predicate HasNeighbour(m: Mask, h: int, w: int, y: int, x: int)
  {
    TextAt(m, h, w, y - 1, x) || TextAt(m, h, w, y + 1, x) || TextAt(m, h, w, y, x - 1) || TextAt(m, h, w, y, x + 1)
  }

  // ----- the boxes -----

  /** Pixel `i` of either axis in millimetres: 100 pixels to the inch. */
  function Coord(i: int): real
  {
    i as real / 100.0 * 25.4
  }

  /** A pixel's side in millimetres. */
  const Pitch: real := 0.254

  /** The box over the pixel with corner `(x, y)` and height `z`: its four top corners,
      then the same four at height 0. */
  function BoxVertices(x: real, y: real, z: real): seq<Vertex>
  {
    [Vertex(x, y, z), Vertex(x + Pitch, y, z), Vertex(x, y + Pitch, z), Vertex(x + Pitch, y + Pitch, z),
     Vertex(x, y, 0.0), Vertex(x + Pitch, y, 0.0), Vertex(x, y + Pitch, 0.0), Vertex(x + Pitch, y + Pitch, 0.0)]
  }

  /** The twelve triangles of a box whose eight vertices are numbered from `s`: two on
      top, two underneath and two on each side. */
  function BoxFaces(s: int): seq<Face>
  {
    [Face(s, s + 1, s + 2), Face(s + 2, s + 1, s + 3),
     Face(s + 4, s + 6, s + 5), Face(s + 6, s + 7, s + 5),
     Face(s, s + 4, s + 1), Face(s + 1, s + 4, s + 5),
     Face(s + 1, s + 5, s + 3), Face(s + 3, s + 5, s + 7),
     Face(s + 3, s + 7, s + 2), Face(s + 2, s + 7, s + 6),
     Face(s + 2, s + 6, s), Face(s, s + 6, s + 4)]
  }

  /** The height of pixel `p` without a base. */
  function PixelZ(px: Pixels, thickness: real, p: (int, int)): real
  {
    if 0 <= p.0 < |px| && 0 <= p.1 < |px[p.0]| then ZOf(px[p.0][p.1], false, thickness) else 0.0
  }

  /** The pixels of `cands` that have a text neighbour, order kept. */
  function Kept(m: Mask, h: int, w: int, cands: seq<(int, int)>): seq<(int, int)>
  {
    if |cands| == 0 then []
    else
      var p := cands[|cands| - 1];
      Kept(m, h, w, cands[..|cands| - 1]) + (if HasNeighbour(m, h, w, p.0, p.1) then [p] else [])
  }

  /** The boxes' vertices for a list of pixels. */
  function Boxes(px: Pixels, thickness: real, kept: seq<(int, int)>): seq<Vertex>
  {
    if |kept| == 0 then []
    else
      var p := kept[|kept| - 1];
      Boxes(px, thickness, kept[..|kept| - 1]) + BoxVertices(Coord(p.1), Coord(p.0), PixelZ(px, thickness, p))
  }

  /** The boxes' faces for `n` boxes, box `k` over vertices `8k .. 8k+7`. */
  function BoxFaceList(n: nat): seq<Face>
  {
    if n == 0 then [] else BoxFaceList(n - 1) + BoxFaces(8 * (n - 1))
  }

  /** The no-base branch after the emptiness test: every text pixel, in row-major
      order, that has a text neighbour gets a box; the counter advances by the box's
      eight vertices. */
  method TextBoxes(px: Pixels, w: nat, thickness: real) returns (vertices: seq<Vertex>, faces: seq<Face>)
    ensures var m := TextMask(px, w, thickness);
      var kept := Kept(m, |px|, w, Selection(m, |px|, w));
      vertices == Boxes(px, thickness, kept) && faces == BoxFaceList(|kept|)
  {
    var m := TextMask(px, w, thickness);
    var cands := Selection(m, |px|, w);
    vertices, faces := [], [];
    var vertexCount := 0;
    ghost var kept: seq<(int, int)> := [];
    var i := 0;
    while i < |cands|
      invariant 0 <= i <= |cands|
      invariant kept == Kept(m, |px|, w, cands[..i])
      invariant vertices == Boxes(px, thickness, kept) && faces == BoxFaceList(|kept|)
      invariant vertexCount == 8 * |kept|
    {
      assert cands[..i + 1][..i] == cands[..i];
      var (y, x) := cands[i];
      if HasNeighbour(m, |px|, w, y, x) {
        vertices := vertices + BoxVertices(Coord(x), Coord(y), PixelZ(px, thickness, (y, x)));
        faces := faces + BoxFaces(vertexCount);
        vertexCount := vertexCount + 8;
        kept := kept + [(y, x)];
        assert kept[..|kept| - 1] == Kept(m, |px|, w, cands[..i]);
      }
      i := i + 1;
    }
    assert cands[..i] == cands;
  }

  /** The box triangle that runs from corner `a` to corner `b` (the box's corners
      numbered 0 to 7 as in `BoxVertices`), -1 when none does. */
  function BoxOwner(a: int, b: int): int
  {
    match (a, b)
    case (0, 1) => 0  case (1, 2) => 0  case (2, 0) => 0
    case (2, 1) => 1  case (1, 3) => 1  case (3, 2) => 1
    case (4, 6) => 2  case (6, 5) => 2  case (5, 4) => 2
    case (6, 7) => 3  case (7, 5) => 3  case (5, 6) => 3
    case (0, 4) => 4  case (4, 1) => 4  case (1, 0) => 4
    case (1, 4) => 5  case (4, 5) => 5  case (5, 1) => 5
    case (1, 5) => 6  case (5, 3) => 6  case (3, 1) => 6
    case (3, 5) => 7  case (5, 7) => 7  case (7, 3) => 7
    case (3, 7) => 8  case (7, 2) => 8  case (2, 3) => 8
    case (2, 7) => 9  case (7, 6) => 9  case (6, 2) => 9
    case (2, 6) => 10 case (6, 0) => 10 case (0, 2) => 10
    case (0, 6) => 11 case (6, 4) => 11 case (4, 0) => 11
    case _ => -1
  }

  /** Every directed edge of a box triangle has that triangle as its owner, and its
      reverse is an edge of the owner of the reverse. */
  lemma BoxOwned(s: int, k: int, e: Edge)
    requires 0 <= k < 12 && e in Edges(BoxFaces(s)[k])
    ensures BoxOwner(e.from - s, e.to - s) == k
    ensures var k' := BoxOwner(e.to - s, e.from - s); 0 <= k' < 12 && Edge(e.to, e.from) in Edges(BoxFaces(s)[k'])
  {
  }

  /** No two triangles of a box run along the same directed edge. */
  lemma BoxConsistent(s: int)
    ensures WindingConsistent(BoxFaces(s))
  {
    var fs := BoxFaces(s);
    forall i, j | 0 <= i < j < |fs|
      ensures Edges(fs[i]) !! Edges(fs[j])
    {
      forall e | e in Edges(fs[i])
        ensures e !in Edges(fs[j])
      {
        BoxOwned(s, i, e);
        if e in Edges(fs[j]) {
          BoxOwned(s, j, e);
        }
      }
    }
  }

  /** A box is closed: every edge of one of its triangles is run along in the
      opposite direction by another of its triangles. */
  lemma BoxPaired(s: int)
    ensures Closed(BoxFaces(s))
  {
    var fs := BoxFaces(s);
    forall k, e | FaceEdge(fs, k, e)
      ensures EdgeUsed(fs, Edge(e.to, e.from))
    {
      BoxOwned(s, k, e);
    }
  }

  /** A box's twelve triangles are proper and keep to its own eight vertices. */
  lemma BoxProper(s: int)
    ensures |BoxFaces(s)| == 12 && AllNonDegenerate(BoxFaces(s))
    ensures forall k :: 0 <= k < 12 ==> InBlock(BoxFaces(s)[k], s, s + 8)
  {
  }

  /** Box `k` of the list is the box of the `k`-th kept pixel, over vertices
      `8k .. 8k+7`, and its faces are slots `12k .. 12k+11`. */
  lemma BoxesLayout(px: Pixels, thickness: real, kept: seq<(int, int)>, k: int)
    requires 0 <= k < |kept|
    ensures var vs, fs, p := Boxes(px, thickness, kept), BoxFaceList(|kept|), kept[k];
      |vs| == 8 * |kept| && |fs| == 12 * |kept| &&
      vs[8 * k .. 8 * k + 8] == BoxVertices(Coord(p.1), Coord(p.0), PixelZ(px, thickness, p)) &&
      fs[12 * k .. 12 * k + 12] == BoxFaces(8 * k)
  {
    BoxVerticesAt(px, thickness, kept, k);
    BoxFacesAt(|kept|, k);
  }

  lemma {:induction false} BoxVerticesAt(px: Pixels, thickness: real, kept: seq<(int, int)>, k: int)
    requires 0 <= k < |kept|
    ensures var vs, p := Boxes(px, thickness, kept), kept[k];
      |vs| == 8 * |kept| && vs[8 * k .. 8 * k + 8] == BoxVertices(Coord(p.1), Coord(p.0), PixelZ(px, thickness, p))
  {
    var n := |kept|;
    var prefix := kept[..n - 1];
    var p := kept[n - 1];
    var vs, box := Boxes(px, thickness, prefix), BoxVertices(Coord(p.1), Coord(p.0), PixelZ(px, thickness, p));
    BoxesLength(px, thickness, prefix);
    if k == n - 1 {
      SliceAfter(vs, box, 8 * k);
    } else {
      BoxVerticesAt(px, thickness, prefix, k);
      var q := kept[k];
      SliceKept(vs, box, 8 * k, BoxVertices(Coord(q.1), Coord(q.0), PixelZ(px, thickness, q)));
    }
  }

  lemma BoxFacesAt(n: nat, k: int)
    requires 0 <= k < n
    ensures |BoxFaceList(n)| == 12 * n && BoxFaceList(n)[12 * k .. 12 * k + 12] == BoxFaces(8 * k)
  {
    FaceListLength(n);
    FaceListLength(k);
    FaceListPrefix(n, k + 1);
    SliceAfter(BoxFaceList(k), BoxFaces(8 * k), 12 * k);
    SlicePrefix(BoxFaceList(n), 12 * (k + 1), 12 * k);
  }

  /** The faces of the first `m` boxes are the first `12m` faces. */
  lemma {:induction false} FaceListPrefix(n: nat, m: nat)
    requires m <= n
    ensures 12 * m <= |BoxFaceList(n)| && BoxFaceList(n)[..12 * m] == BoxFaceList(m)
  {
    FaceListLength(n);
    if m < n {
      FaceListPrefix(n - 1, m);
      FaceListLength(n - 1);
      PrefixOfConcat(BoxFaceList(n - 1), BoxFaces(8 * (n - 1)), 12 * m);
    } else {
      assert BoxFaceList(n)[..12 * m] == BoxFaceList(n);
    }
  }

  lemma PrefixOfConcat<T>(a: seq<T>, b: seq<T>, j: int)
    requires 0 <= j <= |a|
    ensures (a + b)[..j] == a[..j]
  {
  }

  lemma SlicePrefix<T>(a: seq<T>, j: int, i: int)
    requires 0 <= i <= j <= |a|
    ensures a[..j][i..j] == a[i..j]
  {
  }

  lemma SliceKept<T>(a: seq<T>, b: seq<T>, i: int, piece: seq<T>)
    requires 0 <= i && i + |piece| <= |a| && a[i..i + |piece|] == piece
    ensures (a + b)[i..i + |piece|] == piece
  {
    assert (a + b)[i..i + |piece|] == a[i..i + |piece|];
  }

  lemma SliceAfter<T>(a: seq<T>, b: seq<T>, i: int)
    requires i == |a|
    ensures (a + b)[i..i + |b|] == b
  {
  }

  lemma {:induction false} BoxesLength(px: Pixels, thickness: real, kept: seq<(int, int)>)
    ensures |Boxes(px, thickness, kept)| == 8 * |kept|
  {
    if |kept| > 0 {
      BoxesLength(px, thickness, kept[..|kept| - 1]);
    }
  }

  lemma {:induction false} FaceListLength(n: nat)
    ensures |BoxFaceList(n)| == 12 * n
  {
    if n > 0 {
      FaceListLength(n - 1);
    }
  }

  /** The boxes' faces are proper triangles, box `k`'s over its own vertices
      `8k .. 8k+7`. */
  lemma {:induction false} BoxListProper(n: nat)
    ensures |BoxFaceList(n)| == 12 * n && AllNonDegenerate(BoxFaceList(n))
    ensures forall k :: 0 <= k < |BoxFaceList(n)| ==> InBlock(BoxFaceList(n)[k], 0, 8 * n)
  {
    FaceListLength(n);
    if n > 0 {
      BoxListProper(n - 1);
      var prev, box := BoxFaceList(n - 1), BoxFaces(8 * (n - 1));
      BoxProper(8 * (n - 1));
      var fs := prev + box;
      forall k | 0 <= k < |fs|
        ensures InBlock(fs[k], 0, 8 * n) && NonDegenerate(fs[k])
      {
        if k >= |prev| {
          assert fs[k] == box[k - |prev|];
        } else {
          assert fs[k] == prev[k];
        }
      }
    }
  }

  /** No two faces of the boxes run along the same directed edge: within a box by
      `BoxConsistent`, across boxes because each box keeps to its own vertices. */
  lemma {:induction false} BoxListConsistent(n: nat)
    ensures WindingConsistent(BoxFaceList(n))
  {
    if n > 0 {
      BoxListConsistent(n - 1);
      BoxListProper(n - 1);
      var prev, box := BoxFaceList(n - 1), BoxFaces(8 * (n - 1));
      BoxConsistent(8 * (n - 1));
      BoxProper(8 * (n - 1));
      forall i, j | 0 <= i < |prev| && 0 <= j < |box|
        ensures Edges(prev[i]) !! Edges(box[j])
      {
        BlocksApart(prev[i], box[j], 8 * (n - 1));
      }
      ConsistentConcat(prev, box);
    }
  }

  /** Every box of the list is closed. */
  lemma {:induction false} BoxListPaired(n: nat)
    ensures Closed(BoxFaceList(n))
  {
    if n > 0 {
      BoxListPaired(n - 1);
      BoxPaired(8 * (n - 1));
      ClosedConcat(BoxFaceList(n - 1), BoxFaces(8 * (n - 1)));
    }
  }

  /** Faces in the blocks below `s` and from `s` on share no edge. */
  lemma BlocksApart(f: Face, g: Face, s: int)
    requires InBlock(f, 0, s) && InBlock(g, s, s + 8)
    ensures Edges(f) !! Edges(g)
  {
  }

  // ----- the field surface (with a base) -----

  /** The point of pixel `(y, x)` with a base: no row flip, millimetre coordinates. */
  function FieldPoint(px: Pixels, thickness: real): (int, int) -> seq<Vertex>
  {
    (y: int, x: int) =>
      if 0 <= y < |px| && 0 <= x < |px[y]| then [Vertex(Coord(x), Coord(y), ZOf(px[y][x], true, thickness))] else []
  }

  function FieldVertices(px: Pixels, w: nat, thickness: real): seq<Vertex>
  {
    Tile(|px|, w, FieldPoint(px, thickness))
  }

  lemma FieldPointsSingle(px: Pixels, w: nat, thickness: real)
    requires IsGreyscale(px, w)
    ensures forall y, x :: 0 <= y < |px| && 0 <= x < w ==>
      FieldPoint(px, thickness)(y, x) == [Vertex(Coord(x), Coord(y), ZOf(px[y][x], true, thickness))]
  {
  }

  /** With a base there is one vertex per pixel, vertex `y*w + x` sitting over pixel
      `(y, x)` at the height of its darkness, and the faces are the grid surface's,
      all proper, within the vertices and consistently wound. */
  lemma FieldSurface(px: Pixels, w: nat, thickness: real)
    requires IsGreyscale(px, w)
    ensures var vs, fs := FieldVertices(px, w, thickness), GridFaces(|px|, w);
      |vs| == |px| * w && AllInRange(fs, |vs|) && AllNonDegenerate(fs) && WindingConsistent(fs) &&
      (forall y, x :: 0 <= y < |px| && 0 <= x < w ==>
        0 <= Flat(w, y, x) < |vs| && vs[Flat(w, y, x)] == Vertex(Coord(x), Coord(y), ZOf(px[y][x], true, thickness)))
  {
    FieldPointsSingle(px, w, thickness);
    GridMesh.SingleSlots(|px|, w, FieldPoint(px, thickness));
    GridFacesWellFormed(|px|, w);
    GridConsistent(|px|, w);
  }

  // ----- the whole conversion -----

  /** The relief mesh of the rendered canvas: with a base the field surface (written
      when it has vertices and faces); without one nothing when no pixel is text, and
      otherwise the boxes (written when there is at least one). The base plate added
      by the mesh library is not part of it. */
  function TextMesh(px: Pixels, w: nat, addBase: bool, thickness: real): Option<MeshData>
  {
    if addBase then
      var md := MeshData(FieldVertices(px, w, thickness), GridFaces(|px|, w));
      if |md.vertices| > 0 && |md.faces| > 0 then Some(md) else None
    else
      var m := TextMask(px, w, thickness);
      if Total(m, |px|, w) == 0 then None
      else
        var kept := Kept(m, |px|, w, Selection(m, |px|, w));
        var md := MeshData(Boxes(px, thickness, kept), BoxFaceList(|kept|));
        if |md.vertices| > 0 && |md.faces| > 0 then Some(md) else None
  }

  /** The canvas renderer (font, drawing, blur and mirroring) yields a grey-scale image
      of the canvas size. */
  ghost predicate Renders(render: (int, int) -> Pixels)
  {
    forall w: int, h: int :: w >= 1 && h >= 1 ==> |render(w, h)| == h && IsGreyscale(render(w, h), w)
  }

  /** The desktop text converter: the output path when a mesh is written, nothing
      otherwise. The directory creation, the font loading and the preview image are
      left out; the renderer and the clock's timestamp are parameters. */
  method TextToStl(textLength: nat, fontSize: int, thickness: real, filename: string, addBase: bool,
                   useTimestamp: bool, timestamp: string, render: (int, int) -> Pixels)
    returns (path: Option<string>, md: MeshData)
    requires Renders(render)
    ensures var w, h := CanvasWidth(textLength, fontSize), CanvasHeight(fontSize);
      var r := TextMesh(render(w, h), w, addBase, thickness);
      (path.Some? <==> r.Some?) &&
      (path.Some? ==> path.value == TextOutputPath(filename, useTimestamp, timestamp) && md == r.value)
  {
    var outputPath := TextOutputPath(filename, useTimestamp, timestamp);
    var w, h := CanvasWidth(textLength, fontSize), CanvasHeight(fontSize);
    var px := render(w, h);
    if !addBase {
      var m := TextMask(px, w, thickness);
      if Total(m, |px|, w) == 0 {
        return None, MeshData([], []);
      }
      var vertices, faces := TextBoxes(px, w, thickness);
      md := MeshData(vertices, faces);
    } else {
      var faces := GridMesh.BuildFaces(|px|, w);
      md := MeshData(FieldVertices(px, w, thickness), faces);
    }
    if |md.vertices| > 0 && |md.faces| > 0 {
      path := Some(outputPath);
    } else {
      path := None;
    }
  }

  /** With a base the converter always writes a mesh: the canvas is at least 200 x 100
      pixels, so the grid surface has vertices and faces. */
  lemma BaseAlwaysWritten(textLength: nat, fontSize: int, thickness: real, render: (int, int) -> Pixels)
    requires Renders(render)
    ensures var w, h := CanvasWidth(textLength, fontSize), CanvasHeight(fontSize);
      TextMesh(render(w, h), w, true, thickness).Some?
  {
    var w, h := CanvasWidth(textLength, fontSize), CanvasHeight(fontSize);
    var px := render(w, h);
    FieldSurface(px, w, thickness);
    GridFacesCount(h, w);
    Positive(h - 1, w - 1);
  }

  lemma Positive(a: int, b: int)
    requires a >= 1 && b >= 1
    ensures a * b >= 1
  {
  }

  /** Without a base a mesh is written exactly when some text pixel has a text
      neighbour; it then holds eight vertices and twelve faces per such pixel, and the
      box at vertices `8k .. 8k+7` belongs to the `k`-th of them. */
  lemma NoBaseMesh(px: Pixels, w: nat, thickness: real)
    ensures var m := TextMask(px, w, thickness);
      var kept := Kept(m, |px|, w, Selection(m, |px|, w));
      var r := TextMesh(px, w, false, thickness);
      (r.Some? <==> |kept| > 0) &&
      (r.Some? ==> |r.value.vertices| == 8 * |kept| && |r.value.faces| == 12 * |kept| &&
                   AllInRange(r.value.faces, |r.value.vertices|) && AllNonDegenerate(r.value.faces) &&
                   WindingConsistent(r.value.faces) && Closed(r.value.faces))
  {
    var m := TextMask(px, w, thickness);
    var cands := Selection(m, |px|, w);
    var kept := Kept(m, |px|, w, cands);
    BoxesLength(px, thickness, kept);
    BoxListProper(|kept|);
    BoxListConsistent(|kept|);
    BoxListPaired(|kept|);
    TotalLength(m, Pixel(m), |px|, w);
    KeptShorter(m, |px|, w, cands);
  }

  lemma {:induction false} KeptShorter(m: Mask, h: int, w: int, cands: seq<(int, int)>)
    ensures |Kept(m, h, w, cands)| <= |cands|
  {
    if |cands| > 0 {
      KeptShorter(m, h, w, cands[..|cands| - 1]);
    }
  }

  /** A pixel gets a box exactly when it is a text pixel with a text neighbour. */
  lemma {:induction false} KeptExactly(m: Mask, h: int, w: int, cands: seq<(int, int)>, p: (int, int))
    ensures p in Kept(m, h, w, cands) <==> p in cands && HasNeighbour(m, h, w, p.0, p.1)
  {
    if |cands| > 0 {
      KeptExactly(m, h, w, cands[..|cands| - 1], p);
      assert cands == cands[..|cands| - 1] + [cands[|cands| - 1]];
    }
  }

  /** The candidates are exactly the text pixels of the canvas, so a pixel gets a box
      exactly when it and one of its 4-neighbours are text pixels. */
  lemma BoxedPixels(px: Pixels, w: nat, thickness: real, y: int, x: int)
    ensures var m := TextMask(px, w, thickness);
      (y, x) in Kept(m, |px|, w, Selection(m, |px|, w)) <==>
        TextAt(m, |px|, w, y, x) && HasNeighbour(m, |px|, w, y, x)
  {
    var m := TextMask(px, w, thickness);
    KeptExactly(m, |px|, w, Selection(m, |px|, w), (y, x));
    if TextAt(m, |px|, w, y, x) {
      RankBijective(m, |px|, w, y, x, y, x);
    }
    if (y, x) in Selection(m, |px|, w) {
      SelectionInside(m, |px|, w, (y, x));
    }
  }

  /** Only selected pixels appear in the selection. */
  lemma SelectionInside(m: Mask, rows: nat, cols: nat, p: (int, int))
    requires p in Selection(m, rows, cols)
    ensures 0 <= p.0 < rows && 0 <= p.1 < cols && MaskAt(m, p.0, p.1)
  {
    var k :| 0 <= k < |Selection(m, rows, cols)| && Selection(m, rows, cols)[k] == p;
    var y, x := TileOwner(rows, cols, Pixel(m), p);
  }
}
