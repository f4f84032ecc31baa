/** The contour-line relief: the contour polylines found in the normalised image (by
    OpenCV, outside this model) are chosen by size and given heights, and each chosen
    polyline with at least three points becomes a flat fan of triangles at its height
    above a rectangular base plate. */
module ContourRelief {
  import opened Mesh

  /** A contour point in pixel coordinates. */
  datatype Point = Point(x: int, y: int)

  type Polyline = seq<Point>

  // ----- the mesh -----

  /** The base plate's corners at height 0, spanning the image. */
  function BaseVertices(height: int, width: int): seq<Vertex>
  {
    [Vertex(0.0, 0.0, 0.0), Vertex(width as real, 0.0, 0.0),
     Vertex(width as real, height as real, 0.0), Vertex(0.0, height as real, 0.0)]
  }

  /** The base plate's two triangles. */
  const BaseFaces: seq<Face> := [Face(0, 1, 2), Face(0, 2, 3)]

  /** The height of a contour's fan. */
  function Level(h: real, extrusionHeight: real, baseHeight: real): real
  {
    h * extrusionHeight + baseHeight
  }

  /** A contour's points at height `z`, the image's y axis turned upwards. */
  function Lifted(c: Polyline, height: int, z: real): seq<Vertex>
  {
    seq(|c|, j requires 0 <= j < |c| => Vertex(c[j].x as real, (height - c[j].y) as real, z))
  }

  /** The fan over the `n` vertices numbered from `s`: one triangle per point, from the
      point to its successor (cyclically) and back to the first point. */
  function Fan(n: nat, s: int): seq<Face>
  {
    seq(n, j requires 0 <= j < n => Face(s + j, s + (j + 1) % n, s))
  }

  /** The number of contour/height pairs; surplus entries of the longer list are
      ignored. */
  function Pairs(contours: seq<Polyline>, heights: seq<real>): nat
  {
    if |contours| <= |heights| then |contours| else |heights|
  }

  /** The vertex count once the first `k` contours are processed: the four corners plus
      the points of every contour with at least three points. */
  function Points(contours: seq<Polyline>, k: nat): nat
    requires k <= |contours|
  {
    if k == 0 then 4
    else Points(contours, k - 1) + (if |contours[k - 1]| < 3 then 0 else |contours[k - 1]|)
  }

  /** The vertices once the first `k` contours are processed. */
  function MeshVertices(contours: seq<Polyline>, heights: seq<real>, k: nat, height: int, width: int,
                        extrusionHeight: real, baseHeight: real): seq<Vertex>
    requires k <= Pairs(contours, heights)
  {
    if k == 0 then BaseVertices(height, width)
    else
      var prev := MeshVertices(contours, heights, k - 1, height, width, extrusionHeight, baseHeight);
      var c := contours[k - 1];
      if |c| < 3 then prev else prev + Lifted(c, height, Level(heights[k - 1], extrusionHeight, baseHeight))
  }

  /** The faces once the first `k` contours are processed. */
  function MeshFaces(contours: seq<Polyline>, k: nat): seq<Face>
    requires k <= |contours|
  {
    if k == 0 then BaseFaces
    else
      var prev := MeshFaces(contours, k - 1);
      var c := contours[k - 1];
      if |c| < 3 then prev else prev + Fan(|c|, Points(contours, k - 1))
  }

  /** One contour's vertices and fan, appended to the lists, the counter advanced point
      by point. */
  method AddContour(vertices: seq<Vertex>, faces: seq<Face>, vertexCount: int, c: Polyline, height: int, z: real)
    returns (vertices': seq<Vertex>, faces': seq<Face>, vertexCount': int)
    requires |c| >= 3
    ensures vertices' == vertices + Lifted(c, height, z)
    ensures faces' == faces + Fan(|c|, vertexCount)
    ensures vertexCount' == vertexCount + |c|
  {
    vertices' := LiftContour(vertices, c, height, z);
    vertexCount' := vertexCount + |c|;
    faces' := FanContour(faces, |c|, vertexCount);
  }

  /** The vertex loop: every point of the contour at level `z`, in order. */
  method LiftContour(vertices: seq<Vertex>, c: Polyline, height: int, z: real) returns (vertices': seq<Vertex>)
    ensures vertices' == vertices + Lifted(c, height, z)
  {
    ghost var lifted := Lifted(c, height, z);
    vertices' := vertices;
    var j := 0;
    while j < |c|
      invariant 0 <= j <= |c|
      invariant vertices' == vertices + lifted[..j]
    {
      TakeStep(lifted, j);
      vertices' := vertices' + [Vertex(c[j].x as real, (height - c[j].y) as real, z)];
      j := j + 1;
    }
    assert lifted[..|c|] == lifted;
  }

  /** The face loop: the fan over the `n` vertices numbered from `start`. */
  method FanContour(faces: seq<Face>, n: nat, start: int) returns (faces': seq<Face>)
    requires n >= 1
    ensures faces' == faces + Fan(n, start)
  {
    ghost var fan := Fan(n, start);
    faces' := faces;
    var j := 0;
    while j < n
      invariant 0 <= j <= n
      invariant faces' == faces + fan[..j]
    {
      TakeStep(fan, j);
      faces' := faces' + [Face(start + j, start + (j + 1) % n, start)];
      j := j + 1;
    }
    assert fan[..n] == fan;
  }

  /** Taking one more element extends the prefix by that element. */
  lemma TakeStep<T>(s: seq<T>, j: int)
    requires 0 <= j < |s|
    ensures s[..j + 1] == s[..j] + [s[j]]
  {
  }

  /** The contour mesh and its STL facets, one per face. */
  method CreateContourMesh(contours: seq<Polyline>, heights: seq<real>, height: int, width: int,
                           extrusionHeight: real, baseHeight: real)
    returns (vertices: seq<Vertex>, faces: seq<Face>, facets: seq<Triangle>)
    ensures var k := Pairs(contours, heights);
      vertices == MeshVertices(contours, heights, k, height, width, extrusionHeight, baseHeight) &&
      faces == MeshFaces(contours, k)
    ensures AllInRange(faces, |vertices|) && |facets| == |faces|
    ensures forall i :: 0 <= i < |faces| ==> facets[i] == Corners(vertices, faces[i])
  {
    vertices := BaseVertices(height, width);
    faces := BaseFaces;
    var vertexCount := 4;
    var pairs := Pairs(contours, heights);
    var i := 0;
    while i < pairs
      invariant 0 <= i <= pairs
      invariant vertices == MeshVertices(contours, heights, i, height, width, extrusionHeight, baseHeight)
      invariant faces == MeshFaces(contours, i)
      invariant vertexCount == |vertices| == Points(contours, i)
    {
      var c := contours[i];
      var z := Level(heights[i], extrusionHeight, baseHeight);
      if |c| >= 3 {
        vertices, faces, vertexCount := AddContour(vertices, faces, vertexCount, c, height, z);
      }
      assert vertices == MeshVertices(contours, heights, i + 1, height, width, extrusionHeight, baseHeight);
      assert faces == MeshFaces(contours, i + 1);
      i := i + 1;
    }
    MeshCounts(contours, heights, pairs, height, width, extrusionHeight, baseHeight);
    var vectors := FillVectors(vertices, faces);
    facets := vectors[..];
  }

  // ----- what the mesh is -----

  /** Every fan triangle stays within its contour's own vertices. */
  lemma FanInBlock(n: nat, s: int)
    ensures |Fan(n, s)| == n
    ensures forall j :: 0 <= j < n ==> InBlock(Fan(n, s)[j], s, s + n)
  {
  }

  /** Processing one more contour appends its block of vertices and its fan over that
      block, so every face index stays below the vertex count. */
  lemma MeshStep(contours: seq<Polyline>, heights: seq<real>, k: nat, height: int, width: int,
                 extrusionHeight: real, baseHeight: real)
    requires k < Pairs(contours, heights)
    requires |MeshVertices(contours, heights, k, height, width, extrusionHeight, baseHeight)| == Points(contours, k)
    requires AllInRange(MeshFaces(contours, k), Points(contours, k))
    ensures |MeshVertices(contours, heights, k + 1, height, width, extrusionHeight, baseHeight)| == Points(contours, k + 1)
    ensures AllInRange(MeshFaces(contours, k + 1), Points(contours, k + 1))
  {
    var c, s := contours[k], Points(contours, k);
    if |c| >= 3 {
      FanInBlock(|c|, s);
      var fs := MeshFaces(contours, k + 1);
      assert fs == MeshFaces(contours, k) + Fan(|c|, s);
      forall i | 0 <= i < |fs|
        ensures InRange(fs[i], s + |c|)
      {
        if i >= |MeshFaces(contours, k)| {
          assert fs[i] == Fan(|c|, s)[i - |MeshFaces(contours, k)|];
        }
      }
    }
  }

  /** The mesh has the four corners plus one vertex per point of every contour with at
      least three points, and two faces fewer than vertices: the plate's two and one
      per such point; every face index is below the vertex count. */
  lemma {:induction false} MeshCounts(contours: seq<Polyline>, heights: seq<real>, k: nat, height: int, width: int,
                                      extrusionHeight: real, baseHeight: real)
    requires k <= Pairs(contours, heights)
    ensures var vs, fs := MeshVertices(contours, heights, k, height, width, extrusionHeight, baseHeight), MeshFaces(contours, k);
      |vs| == Points(contours, k) && |fs| == Points(contours, k) - 2 && AllInRange(fs, |vs|)
  {
    if k > 0 {
      MeshCounts(contours, heights, k - 1, height, width, extrusionHeight, baseHeight);
      MeshStep(contours, heights, k - 1, height, width, extrusionHeight, baseHeight);
    }
  }

  /** The mesh begins with the plate: its four corners and its two triangles stay in
      front whatever contours follow. */
  lemma {:induction false} PlateFirst(contours: seq<Polyline>, heights: seq<real>, k: nat, height: int, width: int,
                                      extrusionHeight: real, baseHeight: real)
    requires k <= Pairs(contours, heights)
    ensures var vs, fs := MeshVertices(contours, heights, k, height, width, extrusionHeight, baseHeight), MeshFaces(contours, k);
      |vs| >= 4 && vs[..4] == BaseVertices(height, width) && |fs| >= 2 && fs[..2] == BaseFaces
  {
    if k > 0 {
      PlateFirst(contours, heights, k - 1, height, width, extrusionHeight, baseHeight);
      var vs := MeshVertices(contours, heights, k - 1, height, width, extrusionHeight, baseHeight);
      var fs := MeshFaces(contours, k - 1);
      var c := contours[k - 1];
      if |c| >= 3 {
        assert (vs + Lifted(c, height, Level(heights[k - 1], extrusionHeight, baseHeight)))[..4] == vs[..4];
        assert (fs + Fan(|c|, Points(contours, k - 1)))[..2] == fs[..2];
      }
    }
  }

  /** Point `j` of contour `k` (kept because it has at least three points) is vertex
      `Points(k) + j`, at the point's x, the image height minus its y, and the
      contour's level; its fan follows the fans of the earlier contours. */
  lemma {:induction false} ContourPlaced(contours: seq<Polyline>, heights: seq<real>, n: nat, height: int, width: int,
                                         extrusionHeight: real, baseHeight: real, k: nat, j: int)
    requires k < n <= Pairs(contours, heights) && |contours[k]| >= 3 && 0 <= j < |contours[k]|
    ensures var vs := MeshVertices(contours, heights, n, height, width, extrusionHeight, baseHeight);
      var p := contours[k][j];
      Points(contours, k) + j < |vs| &&
      vs[Points(contours, k) + j] == Vertex(p.x as real, (height - p.y) as real, Level(heights[k], extrusionHeight, baseHeight))
    ensures var fs := MeshFaces(contours, n); var m := |MeshFaces(contours, k)|;
      m + |contours[k]| <= |fs| && fs[m..m + |contours[k]|] == Fan(|contours[k]|, Points(contours, k))
  {
    MeshCounts(contours, heights, n, height, width, extrusionHeight, baseHeight);
    MeshCounts(contours, heights, k, height, width, extrusionHeight, baseHeight);
    if n == k + 1 {
    } else {
      ContourPlaced(contours, heights, n - 1, height, width, extrusionHeight, baseHeight, k, j);
      MeshCounts(contours, heights, n - 1, height, width, extrusionHeight, baseHeight);
      var vs := MeshVertices(contours, heights, n - 1, height, width, extrusionHeight, baseHeight);
      var fs := MeshFaces(contours, n - 1);
      var c := contours[n - 1];
      if |c| >= 3 {
        var m := |MeshFaces(contours, k)|;
        var all := fs + Fan(|c|, Points(contours, n - 1));
        assert all[m..m + |contours[k]|] == fs[m..m + |contours[k]|];
      }
    }
  }

  // ----- the degenerate fan triangles -----

  /** As written, the first and the last triangle of every fan repeat the fan's first
      vertex, and no other triangle does. */
  lemma FanDegenerate(n: nat, s: int, j: int)
    requires n >= 3 && 0 <= j < n
    ensures !NonDegenerate(Fan(n, s)[j]) <==> (j == 0 || j == n - 1)
  {
    if j == n - 1 {
      assert (j + 1) % n == 0;
    } else {
      assert (j + 1) % n == j + 1;
    }
  }

  /** The fan a polygon of `n` points evidently calls for: `n - 2` triangles from the
      first point over each pair of consecutive other points. */
  function ProperFan(n: nat, s: int): seq<Face>
    requires n >= 2
  {
    seq(n - 2, j requires 0 <= j < n - 2 => Face(s + j + 1, s + j + 2, s))
  }

  /** The proper fan is the written fan without its two degenerate triangles; all its
      triangles are proper and stay within the contour's vertices. */
  lemma ProperFanTrimmed(n: nat, s: int)
    requires n >= 3
    ensures ProperFan(n, s) == Fan(n, s)[1..n - 1]
    ensures AllNonDegenerate(ProperFan(n, s))
    ensures forall j :: 0 <= j < n - 2 ==> InBlock(ProperFan(n, s)[j], s, s + n)
  {
    forall j | 0 <= j < n - 2
      ensures ProperFan(n, s)[j] == Fan(n, s)[1..n - 1][j]
    {
      FanAt(n, s, j + 1);
    }
  }

  /** Before the last point, fan triangle `j` joins point `j` to the next one. */
  lemma FanAt(n: nat, s: int, j: int)
    requires 0 <= j < n - 1
    ensures Fan(n, s)[j] == Face(s + j, s + j + 1, s)
  {
    assert (j + 1) % n == j + 1;
  }

  // ----- choosing the contours -----

  /** Contours with their heights, in the order chosen. */
  datatype Picked = Picked(contours: seq<Polyline>, heights: seq<real>)

  function Add(p: Picked, c: Polyline, h: real): Picked
  {
    Picked(p.contours + [c], p.heights + [h])
  }

  /** Matching lengths, heights in `(0, top]`, never decreasing. */
  predicate Graded(p: Picked, top: real)
  {
    |p.contours| == |p.heights| &&
    (forall j :: 0 <= j < |p.heights| ==> 0.0 < p.heights[j] <= top) &&
    (forall j, j' :: 0 <= j < j' < |p.heights| ==> p.heights[j] <= p.heights[j'])
  }

  /** The adaptive path keeps contours whose area lies strictly between 100 pixels and
      nine tenths of the image. */
  predicate Sized(c: Polyline, area: Polyline -> real, rows: int, cols: int)
  {
    100.0 < area(c) < (rows * cols) as real * 0.9
  }

  /** The size filter, order kept. */
  function SizeFiltered(cs: seq<Polyline>, area: Polyline -> real, rows: int, cols: int): seq<Polyline>
  {
    if |cs| == 0 then []
    else
      var c := cs[|cs| - 1];
      SizeFiltered(cs[..|cs| - 1], area, rows, cols) + (if Sized(c, area, rows, cols) then [c] else [])
  }

  /** The first `i` filtered contours that have at least five points, each with its
      position in the filtered list (from 1) over the list's length as height. */
  function AdaptivePicks(filtered: seq<Polyline>, i: nat): Picked
    requires i <= |filtered|
  {
    if i == 0 then Picked([], [])
    else
      var p := AdaptivePicks(filtered, i - 1);
      var c := filtered[i - 1];
      if |c| >= 5 then Add(p, c, i as real / |filtered| as real) else p
  }

  /** The adaptive path's choice: nothing unless at least three contours pass the size
      filter. */
  function AdaptiveChoice(contours: seq<Polyline>, area: Polyline -> real, rows: int, cols: int): Option<Picked>
  {
    var filtered := SizeFiltered(contours, area, rows, cols);
    if |filtered| >= 3 then Some(AdaptivePicks(filtered, |filtered|)) else None
  }

  /** The adaptive-threshold path over the contours OpenCV found, with their areas. */
  method AdaptiveContours(contours: seq<Polyline>, area: Polyline -> real, rows: int, cols: int)
    returns (r: Option<Picked>)
    ensures r == AdaptiveChoice(contours, area, rows, cols)
  {
    var filtered: seq<Polyline> := [];
    var k := 0;
    while k < |contours|
      invariant 0 <= k <= |contours|
      invariant filtered == SizeFiltered(contours[..k], area, rows, cols)
    {
      assert contours[..k + 1][..k] == contours[..k];
      if Sized(contours[k], area, rows, cols) {
        filtered := filtered + [contours[k]];
      }
      k := k + 1;
    }
    assert contours[..k] == contours;
    if |filtered| < 3 {
      return None;
    }
    var p := Picked([], []);
    var i := 0;
    while i < |filtered|
      invariant 0 <= i <= |filtered|
      invariant p == AdaptivePicks(filtered, i)
    {
      if |filtered[i]| >= 5 {
        p := Add(p, filtered[i], (i + 1) as real / |filtered| as real);
      }
      i := i + 1;
    }
    r := Some(p);
  }

  /** A contour passes the size filter exactly when it is one of the contours and its
      area is in range. */
  lemma {:induction false} SizeFilteredMembers(cs: seq<Polyline>, area: Polyline -> real, rows: int, cols: int, c: Polyline)
    ensures c in SizeFiltered(cs, area, rows, cols) <==> c in cs && Sized(c, area, rows, cols)
    ensures |SizeFiltered(cs, area, rows, cols)| <= |cs|
  {
    if |cs| > 0 {
      SizeFilteredMembers(cs[..|cs| - 1], area, rows, cols, c);
      assert cs == cs[..|cs| - 1] + [cs[|cs| - 1]];
    }
  }

  /** The adaptive choice keeps only contours with at least five points and, read in
      order, gives them strictly rising heights in `(0, 1]`. */
  lemma {:induction false} AdaptiveGraded(filtered: seq<Polyline>, i: nat)
    requires 1 <= |filtered| && i <= |filtered|
    ensures var p := AdaptivePicks(filtered, i);
      Graded(p, i as real / |filtered| as real) &&
      (forall j, j' :: 0 <= j < j' < |p.heights| ==> p.heights[j] < p.heights[j']) &&
      (forall j :: 0 <= j < |p.contours| ==> |p.contours[j]| >= 5 && p.contours[j] in filtered[..i])
  {
    if i > 0 {
      AdaptiveGraded(filtered, i - 1);
      var p := AdaptivePicks(filtered, i - 1);
      assert filtered[..i] == filtered[..i - 1] + [filtered[i - 1]];
      DivMonotone((i - 1) as real, i as real, |filtered| as real);
    }
  }

  lemma DivMonotone(a: real, b: real, d: real)
    requires 0.0 <= a < b && d > 0.0
    ensures 0.0 <= a / d < b / d
  {
  }

  /** The photo path keeps contours with at least five points whose area lies strictly
      between 100 pixels and half the image. */
  predicate PhotoSized(c: Polyline, area: Polyline -> real, rows: int, cols: int)
  {
    |c| >= 5 && 100.0 < area(c) && area(c) < 0.5 * (rows * cols) as real
  }

  /** The contours of threshold `i` of `num`, in order: each that passes is simplified
      and kept with height `(i + 1) / num`, at odd thresholds only while fewer than
      five contours are kept. */
  function PhotoThreshold(p: Picked, cs: seq<Polyline>, i: nat, num: nat, area: Polyline -> real,
                          simplify: Polyline -> Polyline, rows: int, cols: int): Picked
    requires i < num
  {
    if |cs| == 0 then p
    else
      var q := PhotoThreshold(p, cs[..|cs| - 1], i, num, area, simplify, rows, cols);
      var c := cs[|cs| - 1];
      if PhotoSized(c, area, rows, cols) && (i % 2 == 0 || |q.contours| < 5) then
        Add(q, simplify(c), (i + 1) as real / num as real)
      else q
  }

  /** The photo path over the first `k` thresholds. */
  function PhotoPicks(perThreshold: seq<seq<Polyline>>, k: nat, area: Polyline -> real,
                      simplify: Polyline -> Polyline, rows: int, cols: int): Picked
    requires k <= |perThreshold|
  {
    if k == 0 then Picked([], [])
    else PhotoThreshold(PhotoPicks(perThreshold, k - 1, area, simplify, rows, cols), perThreshold[k - 1],
                        k - 1, |perThreshold|, area, simplify, rows, cols)
  }

  /** The photo path: one contour list per threshold (found by OpenCV after the
      threshold and the closing), the areas and the simplification as parameters. */
  method PhotoContours(perThreshold: seq<seq<Polyline>>, area: Polyline -> real, simplify: Polyline -> Polyline,
                       rows: int, cols: int)
    returns (p: Picked)
    ensures p == PhotoPicks(perThreshold, |perThreshold|, area, simplify, rows, cols)
  {
    p := Picked([], []);
    var i := 0;
    while i < |perThreshold|
      invariant 0 <= i <= |perThreshold|
      invariant p == PhotoPicks(perThreshold, i, area, simplify, rows, cols)
    {
      var cs := perThreshold[i];
      ghost var before := p;
      var j := 0;
      while j < |cs|
        invariant 0 <= j <= |cs|
        invariant p == PhotoThreshold(before, cs[..j], i, |perThreshold|, area, simplify, rows, cols)
      {
        assert cs[..j + 1][..j] == cs[..j];
        var c := cs[j];
        if PhotoSized(c, area, rows, cols) && (i % 2 == 0 || |p.contours| < 5) {
          p := Add(p, simplify(c), (i + 1) as real / |perThreshold| as real);
        }
        j := j + 1;
      }
      assert cs[..j] == cs;
      i := i + 1;
    }
  }

  /** The number of contours that pass the photo filter. */
  function PassCount(cs: seq<Polyline>, area: Polyline -> real, rows: int, cols: int): nat
  {
    if |cs| == 0 then 0
    else PassCount(cs[..|cs| - 1], area, rows, cols) + (if PhotoSized(cs[|cs| - 1], area, rows, cols) then 1 else 0)
  }

  /** At an even threshold every passing contour is kept; at an odd one passing
      contours are kept only until five contours are kept in all. */
  lemma {:induction false} PhotoThresholdCount(p: Picked, cs: seq<Polyline>, i: nat, num: nat, area: Polyline -> real,
                                               simplify: Polyline -> Polyline, rows: int, cols: int)
    requires i < num
    ensures var n, m, passing := |p.contours|, |PhotoThreshold(p, cs, i, num, area, simplify, rows, cols).contours|,
                                 PassCount(cs, area, rows, cols);
      (i % 2 == 0 ==> m == n + passing) &&
      (i % 2 == 1 ==> m == if n >= 5 then n else if n + passing <= 5 then n + passing else 5)
  {
    if |cs| > 0 {
      PhotoThresholdCount(p, cs[..|cs| - 1], i, num, area, simplify, rows, cols);
    }
  }

  /** The photo path's heights are `(i + 1) / num` for the thresholds in order, so they
      lie in `(0, 1]` and never decrease. */
  lemma {:induction false} PhotoGraded(perThreshold: seq<seq<Polyline>>, k: nat, area: Polyline -> real,
                                       simplify: Polyline -> Polyline, rows: int, cols: int)
    requires 1 <= |perThreshold| && k <= |perThreshold|
    ensures Graded(PhotoPicks(perThreshold, k, area, simplify, rows, cols), k as real / |perThreshold| as real)
  {
    if k > 0 {
      PhotoGraded(perThreshold, k - 1, area, simplify, rows, cols);
      var p := PhotoPicks(perThreshold, k - 1, area, simplify, rows, cols);
      var num := |perThreshold|;
      DivMonotone((k - 1) as real, k as real, num as real);
      ThresholdGraded(p, perThreshold[k - 1], k - 1, num, area, simplify, rows, cols);
    }
  }

  /** One threshold's contours keep the heights graded, raising the top to the
      threshold's own height. */
  lemma {:induction false} ThresholdGraded(p: Picked, cs: seq<Polyline>, i: nat, num: nat, area: Polyline -> real,
                                           simplify: Polyline -> Polyline, rows: int, cols: int)
    requires i < num && Graded(p, (i + 1) as real / num as real)
    ensures Graded(PhotoThreshold(p, cs, i, num, area, simplify, rows, cols), (i + 1) as real / num as real)
  {
    if |cs| > 0 {
      ThresholdGraded(p, cs[..|cs| - 1], i, num, area, simplify, rows, cols);
      DivMonotone(0.0, (i + 1) as real, num as real);
    }
  }

  /** The contours the converter uses: the photo path's when photo mode is on and it
      found at least three, else the adaptive path's when at least three contours
      passed its size filter, else the fallback thresholds' (computed outside this
      model). */
  function ExtractedContours(isPhoto: bool, photo: Picked, adaptive: Option<Picked>, fallback: Picked): (r: Picked)
    ensures r == fallback || (isPhoto && r == photo && |photo.contours| >= 3) || (adaptive.Some? && r == adaptive.value)
  {
    if isPhoto && |photo.contours| >= 3 then photo
    else if adaptive.Some? then adaptive.value
    else fallback
  }

  /** Whenever the photo path or the adaptive path supplies the contours, every contour
      has a height in `(0, 1]` and the heights never decrease along the list. */
  lemma ChosenGraded(isPhoto: bool, perThreshold: seq<seq<Polyline>>, contours: seq<Polyline>, area: Polyline -> real,
                     simplify: Polyline -> Polyline, rows: int, cols: int, fallback: Picked)
    ensures var photo, adaptive := PhotoPicks(perThreshold, |perThreshold|, area, simplify, rows, cols),
                                   AdaptiveChoice(contours, area, rows, cols);
      (isPhoto && |photo.contours| >= 3) || adaptive.Some? ==>
        Graded(ExtractedContours(isPhoto, photo, adaptive, fallback), 1.0)
  {
    var photo, adaptive := PhotoPicks(perThreshold, |perThreshold|, area, simplify, rows, cols),
                           AdaptiveChoice(contours, area, rows, cols);
    var r := ExtractedContours(isPhoto, photo, adaptive, fallback);
    if isPhoto && |photo.contours| >= 3 {
      assert |perThreshold| >= 1;
      PhotoGraded(perThreshold, |perThreshold|, area, simplify, rows, cols);
      Whole(|perThreshold|);
      assert r == photo;
    } else if adaptive.Some? {
      var filtered := SizeFiltered(contours, area, rows, cols);
      AdaptiveGraded(filtered, |filtered|);
      Whole(|filtered|);
      assert r == adaptive.value;
    }
  }

  lemma Whole(n: nat)
    requires n >= 1
    ensures n as real / n as real == 1.0
  {
  }
}
