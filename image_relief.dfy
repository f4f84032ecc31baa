/** The image converter of the desktop application: an image becomes a height map
    (resampled, scaled, thresholded and framed), and the height map becomes either the
    closed solid over it or, in object-only mode with the imaging libraries present,
    the surface marching cubes extracts from the voxel volume over the object; the
    vertices are optionally turned by quarter turns and every face is written out as
    one STL facet. The pieces shared with the stand-alone script live here too. */
module ImageRelief {
  import opened Mesh
  import opened Heightmaps
  import opened ReliefMap
  import opened ImageSizing
  import opened ClosedSolid
  import opened SolidWinding
  import opened ObjectMode
  import opened Paths
  import opened Tiling

  /** The converter's parameters besides the paths. */
  datatype Settings = Settings(
    width: Option<int>, height: Option<int>, maxHeight: real, base: real, invert: bool,
    threshold: Option<int>, border: int, maxSize: int, objectOnly: bool,
    rotateX: bool, rotateY: bool, rotateZ: bool)

  /** The imaging library's resampling (plus smoothing) yields a grey-scale image of
      the size asked for. */
  ghost predicate Resamples(resample: Size -> Pixels)
  {
    forall z: Size :: z.width >= 1 && z.height >= 1 ==> |resample(z)| == z.height && IsGreyscale(resample(z), z.width)
  }

  /** Marching cubes, when it succeeds, yields faces over its own vertices. */
  ghost predicate ExtractsMeshes(marchingCubes: Volume -> Option<MeshData>)
  {
    forall v :: marchingCubes(v).Some? ==> WellFormed(marchingCubes(v).value)
  }

  // ----- sizing and the height map -----

  /** The size the image is resampled to; the resampling refuses an empty side. */
  function TargetSize(origWidth: int, origHeight: int, s: Settings): (r: Option<Size>)
    requires origWidth >= 1 && origHeight >= 1
    ensures r.Some? ==> r.value.width >= 1 && r.value.height >= 1
  {
    match FitSize(origWidth, origHeight, s.width, s.height, s.maxSize)
    case None => None
    case Some(z) => if z.width >= 1 && z.height >= 1 then Some(z) else None
  }

  /** The frame is added only outside object-only mode, as requested originally. */
  predicate Framed(s: Settings)
  {
    s.border > 0 && !s.objectOnly
  }

  function MapWidth(w: nat, s: Settings): nat
  {
    if Framed(s) then w + 2 * s.border else w
  }

  /** The height map of a `|px| x w` image. */
  function HeightMap(px: Pixels, w: nat, s: Settings): Grid
  {
    var g := ReliefGrid(px, w, s.invert, s.maxHeight, s.base, s.threshold);
    if Framed(s) then Bordered(g, w, s.border, s.base) else g
  }

  lemma HeightMapShape(px: Pixels, w: nat, s: Settings)
    ensures IsGrid(HeightMap(px, w, s), |HeightMap(px, w, s)|, MapWidth(w, s))
    ensures |HeightMap(px, w, s)| == if Framed(s) then |px| + 2 * s.border else |px|
  {
  }

  /** The height-map step: heights, then the frame when asked for. */
  method BuildHeightMap(px: Pixels, w: nat, s: Settings) returns (hm: array2<real>)
    requires IsGrid(px, |px|, w)
    ensures fresh(hm) && hm.Length1 == MapWidth(w, s)
    ensures Snapshot(hm) == HeightMap(px, w, s)
  {
    hm := MakeHeightMap(px, w, s.invert, s.maxHeight, s.base, s.threshold);
    if s.border > 0 && !s.objectOnly {
      hm := AddBorder(hm, s.border, s.base);
    }
  }

  // ----- the two surfaces -----

  function SolidMesh(g: Grid, cols: nat): MeshData
  {
    MeshData(SolidVertices(g, cols), SolidFaces(|g|, cols))
  }

  /** The closed-solid step over the height map. */
  method BuildSolidMesh(hm: array2<real>) returns (md: MeshData)
    requires hm.Length0 >= 1 && hm.Length1 >= 1
    ensures md == SolidMesh(Snapshot(hm), hm.Length1)
  {
    var vertices := BuildSolidVertices(Snapshot(hm), hm.Length1);
    var faces := BuildSolidFaces(hm.Length0, hm.Length1);
    md := MeshData(vertices, faces);
  }

  /** The closed solid over a map of `r x c` cells: `2rc` vertices, the face count of
      its two surfaces and four walls, and proper triangles over those vertices; its
      faces are the corrected solid's with both surfaces reversed, so once the map is
      at least 2 x 2 it is not consistently wound. */
  lemma SolidMeshProperties(g: Grid, cols: nat)
    requires |g| >= 1 && cols >= 1 && IsGrid(g, |g|, cols)
    ensures var md, r, c := SolidMesh(g, cols), |g|, cols;
      |md.vertices| == 2 * (r * c) &&
      |md.faces| == 4 * ((r - 1) * (c - 1)) + 4 * (c - 1) + 4 * (r - 1) &&
      WellFormed(md) && AllNonDegenerate(md.faces) &&
      md.faces == ReversedAll(Tile(Less(r), Less(c), PartCell(r, c, TopCap))) +
        ReversedAll(Tile(Less(r), Less(c), PartCell(r, c, BottomCap))) + Walls(r, c) &&
      (r >= 2 && c >= 2 ==> !WindingConsistent(md.faces))
  {
    var md := SolidMesh(g, cols);
    assert md.faces == SolidFaces(|g|, cols) && md.vertices == SolidVertices(g, cols);
    SolidVertexAt(g, cols, 0, 0);
    assert |md.vertices| == 2 * (|g| * cols);
    SolidFaceCount(|g|, cols);
    SolidWellFormed(|g|, cols);
    assert WellFormed(md);
    SurfacesReversed(|g|, cols);
    if |g| >= 2 && cols >= 2 {
      AsWrittenInconsistent(|g|, cols);
    }
  }

  /** The volume over the selected pixels of the unframed map. */
  function ObjectVolume(g: Grid, mask: Mask, cols: nat, s: Settings): Volume
    requires ZSize(s.maxHeight) >= 2
  {
    VolumeSpec(g, mask, |g|, cols, ZSize(s.maxHeight), s.base, s.maxHeight)
  }

  /** Marching cubes' vertices brought back to the model, its faces reversed. */
  function Adopted(md: MeshData, rows: int, zSize: int, maxHeight: real): MeshData
    requires zSize != 1
  {
    MeshData(seq(|md.vertices|, k requires 0 <= k < |md.vertices| => Rescaled(md.vertices[k], rows, zSize, maxHeight)),
             Flipped(md.faces))
  }

  /** The surface of the object: none when the volume is thinner than the two layers
      marching cubes needs, or when marching cubes fails. */
  function ObjectSurface(g: Grid, mask: Mask, cols: nat, s: Settings, marchingCubes: Volume -> Option<MeshData>): Option<MeshData>
  {
    var zSize := ZSize(s.maxHeight);
    if zSize < 2 then None
    else
      match marchingCubes(ObjectVolume(g, mask, cols, s))
      case None => None
      case Some(md) => Some(Adopted(md, |g|, zSize, s.maxHeight))
  }

  /** The marching-cubes step: the voxel volume, the library's surface, and the
      in-place rescaling of its vertices. */
  method BuildObjectSurface(hm: array2<real>, mask: Mask, s: Settings, marchingCubes: Volume -> Option<MeshData>)
    returns (r: Option<MeshData>)
    ensures r == ObjectSurface(Snapshot(hm), mask, hm.Length1, s, marchingCubes)
  {
    var zSize := ZSize(s.maxHeight);
    if zSize < 2 {
      return None;
    }
    var volume := FillVolume(hm, mask, zSize, s.base, s.maxHeight);
    var extracted := marchingCubes(Voxels(volume));
    if extracted.None? {
      return None;
    }
    var md := extracted.value;
    assert Voxels(volume) == ObjectVolume(Snapshot(hm), mask, hm.Length1, s);
    var verts := new Vertex[|md.vertices|](k requires 0 <= k < |md.vertices| => md.vertices[k]);
    RescaleVertices(verts, hm.Length0, zSize, s.maxHeight);
    assert verts[..] == Adopted(md, hm.Length0, zSize, s.maxHeight).vertices;
    r := Some(MeshData(verts[..], Flipped(md.faces)));
  }

  /** The object surface keeps the extracted vertex count and each vertex's first
      coordinate, flips the second and scales the layer, and reverses every face, so
      a consistently wound extraction stays consistent. */
  lemma ObjectSurfaceProperties(g: Grid, mask: Mask, cols: nat, s: Settings, marchingCubes: Volume -> Option<MeshData>)
    requires ExtractsMeshes(marchingCubes)
    requires ObjectSurface(g, mask, cols, s, marchingCubes).Some?
    ensures ZSize(s.maxHeight) >= 2 && s.maxHeight >= 1.0
    ensures var md := marchingCubes(ObjectVolume(g, mask, cols, s)).value;
      var r := ObjectSurface(g, mask, cols, s, marchingCubes).value;
      WellFormed(r) && |r.vertices| == |md.vertices| && |r.faces| == |md.faces| &&
      (forall k :: 0 <= k < |md.vertices| ==>
        r.vertices[k].x == md.vertices[k].x && r.vertices[k].y == (|g| - 1) as real - md.vertices[k].y) &&
      (WindingConsistent(r.faces) <==> WindingConsistent(md.faces))
  {
    var md := marchingCubes(ObjectVolume(g, mask, cols, s)).value;
    FlippedInvolution(md.faces, |md.vertices|);
  }

  // ----- the desktop converter -----

  /** The surface the desktop converter builds from the resampled image: the
      marching-cubes surface when object-only mode is on and both libraries are
      present, the closed solid over the height map otherwise. */
  function DesktopMesh(px: Pixels, w: nat, s: Settings, hasScipy: bool, hasSkimage: bool,
                       cleanup: Mask -> Mask, marchingCubes: Volume -> Option<MeshData>): Option<MeshData>
  {
    var g := HeightMap(px, w, s);
    if s.objectOnly && hasScipy && hasSkimage then
      var raw := RawMask(px, w, s.invert, EffectiveThreshold(s.threshold, s.invert));
      ObjectSurface(g, ObjectMaskSpec(raw, cleanup(raw), |px|, w), w, s, marchingCubes)
    else Some(SolidMesh(g, MapWidth(w, s)))
  }

  /** The vertices after the quarter turns. */
  function Turned(vs: seq<Vertex>, s: Settings): (r: seq<Vertex>)
    ensures |r| == |vs|
  {
    seq(|vs|, k requires 0 <= k < |vs| => Rotate(vs[k], s.rotateX, s.rotateY, s.rotateZ))
  }

  /** One facet per face, its corners looked up through the face's indices. */
  function Facets(md: MeshData): (r: seq<Triangle>)
    requires WellFormed(md)
    ensures |r| == |md.faces|
  {
    seq(|md.faces|, k requires 0 <= k < |md.faces| => Corners(md.vertices, md.faces[k]))
  }

  /** The facets of a surface after the quarter turns. */
  function Exported(md: MeshData, s: Settings): seq<Triangle>
    requires WellFormed(md)
  {
    Facets(MeshData(Turned(md.vertices, s), md.faces))
  }

  /** The whole conversion: the output path, or nothing when the conversion fails,
      and the facets written. */
  function DesktopResult(origWidth: int, origHeight: int, s: Settings, hasScipy: bool, hasSkimage: bool,
                         resample: Size -> Pixels, cleanup: Mask -> Mask, marchingCubes: Volume -> Option<MeshData>): Option<MeshData>
    requires origWidth >= 1 && origHeight >= 1
  {
    match TargetSize(origWidth, origHeight, s)
    case None => None
    case Some(z) => DesktopMesh(resample(z), z.width, s, hasScipy, hasSkimage, cleanup, marchingCubes)
  }

  /** The turns, on the vertex array in place, then the facet buffer. */
  method Export(md: MeshData, s: Settings) returns (facets: seq<Triangle>)
    requires WellFormed(md)
    ensures facets == Exported(md, s)
  {
    var verts := new Vertex[|md.vertices|](k requires 0 <= k < |md.vertices| => md.vertices[k]);
    ApplyRotations(verts, s.rotateX, s.rotateY, s.rotateZ);
    assert verts[..] == Turned(md.vertices, s);
    var vectors := FillVectors(verts[..], md.faces);
    facets := vectors[..];
  }

  /** The desktop converter. The directory creation, the image decoding and the file
      writing are left out; the original image size, the resampling, the morphology
      chain and marching cubes come in as parameters, and so does the clock's
      timestamp. */
  method ImageToStl(outputPath: string, useTimestamp: bool, timestamp: string, origWidth: int, origHeight: int,
                    s: Settings, hasScipy: bool, hasSkimage: bool,
                    resample: Size -> Pixels, cleanup: Mask -> Mask, marchingCubes: Volume -> Option<MeshData>)
    returns (path: Option<string>, facets: seq<Triangle>)
    requires origWidth >= 1 && origHeight >= 1
    requires Resamples(resample) && ExtractsMeshes(marchingCubes)
    ensures var r := DesktopResult(origWidth, origHeight, s, hasScipy, hasSkimage, resample, cleanup, marchingCubes);
      (path.Some? <==> r.Some?) &&
      (path.Some? ==> path.value == ImageOutputPath(outputPath, useTimestamp, timestamp) &&
                      WellFormed(r.value) && facets == Exported(r.value, s))
  {
    var out := ImageOutputPath(outputPath, useTimestamp, timestamp);
    var size := TargetSize(origWidth, origHeight, s);
    if size.None? {
      return None, [];
    }
    var px := resample(size.value);
    var w := size.value.width;
    var hm := BuildHeightMap(px, w, s);
    var mask: Option<Mask> := None;
    if s.objectOnly && hasScipy {
      var raw := RawMask(px, w, s.invert, EffectiveThreshold(s.threshold, s.invert));
      var m := ObjectMask(px, w, s.invert, s.threshold, cleanup(raw));
      mask := Some(m);
    }
    var md: MeshData;
    if s.objectOnly && hasSkimage && mask.Some? {
      var surface := BuildObjectSurface(hm, mask.value, s, marchingCubes);
      if surface.None? {
        return None, [];
      }
      md := surface.value;
      ObjectSurfaceProperties(Snapshot(hm), mask.value, w, s, marchingCubes);
    } else {
      md := BuildSolidMesh(hm);
      SolidMeshProperties(Snapshot(hm), hm.Length1);
    }
    facets := Export(md, s);
    path := Some(out);
  }

  /** The mode choice: without both libraries object-only mode falls back to the
      closed solid, but the frame stays off as the original request said, so the solid
      spans exactly the resampled image. */
  lemma FallbackWithoutFrame(px: Pixels, w: nat, s: Settings, hasScipy: bool, hasSkimage: bool,
                             cleanup: Mask -> Mask, marchingCubes: Volume -> Option<MeshData>)
    requires s.objectOnly && !(hasScipy && hasSkimage)
    requires |px| >= 1 && w >= 1 && IsGrid(px, |px|, w)
    ensures var r := DesktopMesh(px, w, s, hasScipy, hasSkimage, cleanup, marchingCubes);
      r.Some? && r.value == SolidMesh(ReliefGrid(px, w, s.invert, s.maxHeight, s.base, s.threshold), w) &&
      |r.value.vertices| == 2 * (|px| * w)
  {
    SolidMeshProperties(ReliefGrid(px, w, s.invert, s.maxHeight, s.base, s.threshold), w);
  }

  /** Outside object-only mode the conversion of a decodable image succeeds exactly
      when the sizing yields two non-empty sides, and then yields the closed solid over
      the height map of the resampled image, framed to `height + 2 border` rows. */
  lemma SolidConversion(origWidth: int, origHeight: int, s: Settings, hasScipy: bool, hasSkimage: bool,
                        resample: Size -> Pixels, cleanup: Mask -> Mask, marchingCubes: Volume -> Option<MeshData>)
    requires origWidth >= 1 && origHeight >= 1 && !s.objectOnly && Resamples(resample)
    ensures var r := DesktopResult(origWidth, origHeight, s, hasScipy, hasSkimage, resample, cleanup, marchingCubes);
      var z := TargetSize(origWidth, origHeight, s);
      (r.Some? <==> z.Some?) &&
      (r.Some? ==>
        var g := HeightMap(resample(z.value), z.value.width, s);
        r.value == SolidMesh(g, MapWidth(z.value.width, s)) &&
        |g| == (if s.border > 0 then z.value.height + 2 * s.border else z.value.height) &&
        IsGrid(g, |g|, MapWidth(z.value.width, s)))
  {
    var z := TargetSize(origWidth, origHeight, s);
    if z.Some? {
      HeightMapShape(resample(z.value), z.value.width, s);
    }
  }

  /** Facet `k` is face `k`'s corners after the turns; the turns keep every facet's
      shape and turn its normal with it. */
  lemma ExportedFacets(md: MeshData, s: Settings, k: int)
    requires WellFormed(md) && 0 <= k < |md.faces|
    ensures var f, t := md.faces[k], Exported(md, s)[k];
      |Exported(md, s)| == |md.faces| &&
      t == RotateTriangle(Corners(md.vertices, f), s.rotateX, s.rotateY, s.rotateZ) &&
      Normal(t) == Rotate(Normal(Corners(md.vertices, f)), s.rotateX, s.rotateY, s.rotateZ)
  {
    RotationIsRigid(Origin, Origin, Corners(md.vertices, md.faces[k]), s.rotateX, s.rotateY, s.rotateZ);
  }
}
