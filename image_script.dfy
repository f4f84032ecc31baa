/** The stand-alone image converter script. It shares the sizing, the height map, the
    object mask, the marching-cubes surface, the closed solid and the export with the
    desktop converter, but chooses differently when a library is missing: in
    object-only mode the mask step needs the morphology library outright, and without
    marching cubes the object is extruded (a top and a bottom layer over the selected
    pixels joined by walls along the object's outline) instead of falling back to the
    closed solid. */
module ImageScript {
  import opened Mesh
  import opened Heightmaps
  import opened ReliefMap
  import opened ImageSizing
  import opened ClosedSolid
  import opened ObjectMode
  import opened Extrusion
  import opened ImageRelief

  /** The extruded object over a `|g| x cols` map: the mask's selected pixels on top
      and at the base, the top triangles, their mirror images underneath and the walls
      along the pixels the erosion removes. */
  function ExtrudedMesh(g: Grid, mask: Mask, cols: nat, base: real, erode: Mask -> Mask): MeshData
  {
    MeshData(ExtrusionVertices(g, mask, |g|, cols, base), ExtrusionFaces(mask, erode(mask), |g|, cols))
  }

  /** Some quarter turn is asked for. */
  predicate Turns(s: Settings)
  {
    s.rotateX || s.rotateY || s.rotateZ
  }

  /** The surface the script builds from the resampled image: the closed solid outside
      object-only mode; in object-only mode nothing without the morphology library,
      the marching-cubes surface when that library is present, and the extrusion
      otherwise. An extrusion with no vertices becomes a one-dimensional empty array,
      whose columns the turns cannot index, so with a turn asked for the script fails
      before writing. */
  function ScriptMesh(px: Pixels, w: nat, s: Settings, hasScipy: bool, hasSkimage: bool,
                      cleanup: Mask -> Mask, erode: Mask -> Mask, marchingCubes: Volume -> Option<MeshData>): Option<MeshData>
  {
    var g := HeightMap(px, w, s);
    if !s.objectOnly then Some(SolidMesh(g, MapWidth(w, s)))
    else if !hasScipy then None
    else
      var raw := RawMask(px, w, s.invert, EffectiveThreshold(s.threshold, s.invert));
      var mask := ObjectMaskSpec(raw, cleanup(raw), |px|, w);
      if hasSkimage then ObjectSurface(g, mask, w, s, marchingCubes)
      else
        var md := ExtrudedMesh(g, mask, w, s.base, erode);
        if |md.vertices| == 0 && Turns(s) then None else Some(md)
  }

  /** The whole script run: nothing when the sizing leaves an empty side, the surface
      above otherwise. */
  function ScriptResult(origWidth: int, origHeight: int, s: Settings, hasScipy: bool, hasSkimage: bool,
                        resample: Size -> Pixels, cleanup: Mask -> Mask, erode: Mask -> Mask,
                        marchingCubes: Volume -> Option<MeshData>): Option<MeshData>
    requires origWidth >= 1 && origHeight >= 1
  {
    match TargetSize(origWidth, origHeight, s)
    case None => None
    case Some(z) => ScriptMesh(resample(z), z.width, s, hasScipy, hasSkimage, cleanup, erode, marchingCubes)
  }

  /** The script's conversion function. The image decoding, the file writing and the
      messages are left out; the original image size, the resampling, the morphology
      chain, the erosion and marching cubes come in as parameters. `saved` tells
      whether the file is written to `outputPath`, `facets` what it holds. */
  method ScriptImageToStl(outputPath: string, origWidth: int, origHeight: int, s: Settings,
                          hasScipy: bool, hasSkimage: bool, resample: Size -> Pixels, cleanup: Mask -> Mask,
                          erode: Mask -> Mask, marchingCubes: Volume -> Option<MeshData>)
    returns (saved: bool, facets: seq<Triangle>)
    requires origWidth >= 1 && origHeight >= 1
    requires Resamples(resample) && ExtractsMeshes(marchingCubes)
    ensures var r := ScriptResult(origWidth, origHeight, s, hasScipy, hasSkimage, resample, cleanup, erode, marchingCubes);
      (saved <==> r.Some?) && (saved ==> WellFormed(r.value) && facets == Exported(r.value, s))
  {
    var size := TargetSize(origWidth, origHeight, s);
    if size.None? {
      return false, [];
    }
    var px := resample(size.value);
    var w := size.value.width;
    var hm := BuildHeightMap(px, w, s);
    HeightMapShape(px, w, s);
    var md: MeshData;
    if !s.objectOnly {
      md := BuildSolidMesh(hm);
      SolidMeshProperties(Snapshot(hm), hm.Length1);
    } else {
      if !hasScipy {
        return false, [];
      }
      var raw := RawMask(px, w, s.invert, EffectiveThreshold(s.threshold, s.invert));
      var mask := ObjectMask(px, w, s.invert, s.threshold, cleanup(raw));
      if hasSkimage {
        var surface := BuildObjectSurface(hm, mask, s, marchingCubes);
        if surface.None? {
          return false, [];
        }
        md := surface.value;
        ObjectSurfaceProperties(Snapshot(hm), mask, w, s, marchingCubes);
      } else {
        var vertices, faces := Extrude(hm, mask, erode(mask), s.base);
        if |vertices| == 0 && (s.rotateX || s.rotateY || s.rotateZ) {
          return false, [];
        }
        md := MeshData(vertices, faces);
        ExtrusionWellFormed(Snapshot(hm), mask, erode(mask), hm.Length0, hm.Length1, s.base);
      }
    }
    facets := Export(md, s);
    saved := true;
  }

  /** The script and the desktop converter build the same surface outside object-only
      mode and whenever both libraries are present; with the morphology library
      missing the script fails where the desktop converter builds the closed solid, and
      with only marching cubes missing the script extrudes the object where the
      desktop converter builds the closed solid, failing only for an empty extrusion
      with a turn. */
  lemma ScriptVersusDesktop(px: Pixels, w: nat, s: Settings, hasScipy: bool, hasSkimage: bool,
                            cleanup: Mask -> Mask, erode: Mask -> Mask, marchingCubes: Volume -> Option<MeshData>)
    ensures var script := ScriptMesh(px, w, s, hasScipy, hasSkimage, cleanup, erode, marchingCubes);
      var desktop := DesktopMesh(px, w, s, hasScipy, hasSkimage, cleanup, marchingCubes);
      (!s.objectOnly || (hasScipy && hasSkimage) ==> script == desktop) &&
      (s.objectOnly && !hasScipy ==> script.None? && desktop.Some?) &&
      (s.objectOnly && hasScipy && !hasSkimage ==>
        var raw := RawMask(px, w, s.invert, EffectiveThreshold(s.threshold, s.invert));
        var vs := ExtrusionVertices(HeightMap(px, w, s), ObjectMaskSpec(raw, cleanup(raw), |px|, w), |px|, w, s.base);
        desktop.Some? && desktop.value == SolidMesh(HeightMap(px, w, s), w) &&
        (script.None? <==> |vs| == 0 && Turns(s)) &&
        (script.Some? ==> script.value.vertices == vs))
  {
  }

  /** Without marching cubes the script's object has one top and one bottom vertex per
      selected pixel: the vertex numbered by the pixel's rank sits at the pixel's
      height, its partner `n` places later at the base, every face is a proper
      triangle over those vertices, and the top triangles stay on the top layer while
      their mirror images stay at the base. */
  lemma ExtrudedObject(g: Grid, mask: Mask, cols: nat, base: real, erode: Mask -> Mask, y: int, x: int)
    requires IsGrid(g, |g|, cols)
    requires 0 <= y < |g| && 0 <= x < cols && MaskAt(mask, y, x)
    ensures var md, n, rows := ExtrudedMesh(g, mask, cols, base, erode), Total(mask, |g|, cols), |g|;
      var k, top := Rank(mask, rows, cols, y, x), TopFaces(mask, rows, cols);
      WellFormed(md) && AllNonDegenerate(md.faces) && |md.vertices| == 2 * n && 0 <= k < n &&
      md.vertices[k] == Vertex(x as real, (rows - 1 - y) as real, g[y][x]) &&
      md.vertices[n + k] == Vertex(x as real, (rows - 1 - y) as real, base) &&
      (forall i :: 0 <= i < |top| ==> InBlock(md.faces[i], 0, n)) &&
      (forall i :: |top| <= i < 2 * |top| ==> InBlock(md.faces[i], n, 2 * n))
  {
    var rows := |g|;
    LayersAt(g, mask, rows, cols, base, y, x);
    ExtrusionWellFormed(g, mask, erode(mask), rows, cols, base);
  }

  /** In object-only mode without marching cubes, an image six pixels or fewer across
      selects nothing once the frame is cut away, so the extrusion is empty: the
      script fails exactly when a turn is asked for, and otherwise yields the empty
      mesh. */
  lemma SmallObjectExtruded(px: Pixels, w: nat, s: Settings, cleanup: Mask -> Mask, erode: Mask -> Mask,
                            marchingCubes: Volume -> Option<MeshData>)
    requires s.objectOnly && (|px| <= 6 || w <= 6)
    ensures var r := ScriptMesh(px, w, s, true, false, cleanup, erode, marchingCubes);
      (r.None? <==> Turns(s)) && (r.Some? ==> r.value.vertices == [])
  {
    var g := HeightMap(px, w, s);
    var raw := RawMask(px, w, s.invert, EffectiveThreshold(s.threshold, s.invert));
    var mask := ObjectMaskSpec(raw, cleanup(raw), |px|, w);
    HeightMapShape(px, w, s);
    SmallImageEmpty(raw, cleanup(raw), |px|, w);
    assert forall y, x :: !MaskAt(mask, y, x);
    NoneCounted(mask, w, |g|, 0);
    ExtrusionWellFormed(g, mask, erode(mask), |g|, w, s.base);
  }
}
