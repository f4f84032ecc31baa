# stl3d mesh builders, modelled in Dafny

stl3d turns pictures and text into printable STL solids and repairs STL files. This
project models the part of it that is the program's own logic rather than a call into
an imaging or mesh library:

- **Image relief** (the desktop module `image_to_stl` and the stand-alone
  `image-to-stl.py`): the output-path rewrite, the sizing clamp, the height map
  (inversion, scaling into `[base, base + max_height]`, background threshold, frame),
  the closed solid over the map (top, bottom and four walls), the object-only mode
  (mask, voxel volume, marching-cubes post-processing, and the script's extrusion
  fallback), the quarter-turn rotations and the STL facet fill.
- **Topographic layering**: min/max normalisation, strided downsampling, the grid
  surface and its triangle soup.
- **Contour crafting**: the contour selection and height rules of the photo and
  adaptive paths, and the base plate plus one triangle fan per contour.
- **Text relief**: canvas size, centring, the height field, the neighbour filter, the
  per-pixel boxes and the full-grid surface, and when a file is written.
- **STL repair** (the desktop module `stl_repair` and `stl-fixer.py`): the
  component-size filter of `clean_model`, the bounded repair loop, the aggressive
  fallback ladder of `make_watertight`, the output path and the validity verdict.
- **Numeric entry validation**: the pattern a GUI field accepts and the per-keystroke
  refusal.

Meshes are indexed triangle lists (`Mesh`). Every builder is proved to emit faces
whose indices lie in the vertex list, with the counts the source's loops produce;
the grid builders are specified by row-major tilings (`Tiling`). The closed solid the
converters build is proved to be wound inconsistently, its caps running against its
walls; the same solid with its caps reversed is proved consistently wound
(`SolidWinding`, and "## Findings" below). Heights are `real`; pixel values are
integers in `0..255`. The library calls the code depends on (resampling, morphology,
marching cubes, OpenCV's contour finder, font rendering, trimesh's repair
operations and checks) are parameters of the model: the model states what the
program does with their results.

Where the desktop module and the stand-alone script share code, one member models
both and its row names the other file's lines.

Modules, one file each: `Mesh`, `Tiling`, `Paths`, `Heightmaps`, `ImageSizing`,
`ReliefMap`, `ClosedSolid`, `SolidWinding`, `ObjectMode`, `Extrusion`,
`ImageRelief`, `ImageScript`, `GridMesh`, `Topographic`, `ContourRelief`,
`TextRelief`, `Repair`, `NumericEntry`.

## Model

| member | source | states |
|---|---|---|
| Mesh.FillVectors | stl3d-gui/modules/image_to_stl.py:381-389 | the facet buffer has one slot per face, and slot `i` holds the corners `vertices[faces[i][j]]` |
| Mesh.ApplyRotations | stl3d-gui/modules/image_to_stl.py:360-377 | every vertex becomes its X turn `(x, z, -y)`, then its Y turn `(z, y, -x)`, then its Z turn `(y, -x, z)`, each only when selected |
| Mesh.TurnIsRigid | stl3d-gui/modules/image_to_stl.py:361-377 | one quarter turn keeps dot products, and the normal of a turned facet is the turned normal |
| Mesh.RotationIsRigid | stl3d-gui/modules/image_to_stl.py:360-377 | the selected turns together keep dot products and turn every facet's normal with it, so leaving the face indices unchanged keeps each facet's orientation |
| Mesh.ConsistentConcat | stl3d-gui/modules/image_to_stl.py:273-354 | two consistently wound face lists with no directed edge in common stay consistent when concatenated |
| Mesh.ClosedConcat | stl3d-gui/modules/image_to_stl.py:273-354 | two closed face lists stay closed when concatenated |
| NumericEntry.RenderedMatches | stl3d-gui/utils/validate_entry.py:22-23 | every numeral (an optional `+`/`-`, digits, an optional point, at least one final digit) is accepted by the pattern |
| NumericEntry.MatchedIsRendered | stl3d-gui/utils/validate_entry.py:22-23 | every string the pattern accepts is some well-formed numeral |
| NumericEntry.ScanSplits | stl3d-gui/utils/validate_entry.py:22 | the unsigned part the pattern accepts splits into whole digits, an optional point and a non-empty run of fraction digits |
| NumericEntry.ValidateIff | stl3d-gui/utils/validate_entry.py:18-23 | a value is accepted exactly when it is empty, a numeral, or a numeral followed by a single newline (which `$` lets through) |
| NumericEntry.RenderedShape | stl3d-gui/utils/validate_entry.py:22 | a numeral ends in a digit, has no sign past its first character, and has at most one point |
| NumericEntry.Refusals | stl3d-gui/utils/validate_entry.py:22 | a value ending in a point or a sign, holding two points, or holding a sign past its first character is refused |
| NumericEntry.Keystroke | stl3d-gui/utils/validate_entry.py:33-34 | the field takes the proposed text exactly when the validator accepts it and otherwise keeps its text, so an accepted field stays accepted |
| NumericEntry.PartialNumbersRefused | stl3d-gui/utils/validate_entry.py:33-34 | typing a lone `-` into an empty field or a point after `2` is refused, while `5` and `-5.1` go through |
| Paths.LastIndex | stl3d-gui/modules/image_to_stl.py:58 | the result is the last position of the character, or -1 when it is absent |
| Paths.LastIndexUnique | stl3d-gui/modules/image_to_stl.py:58 | any index with the three properties of the last occurrence is the one `LastIndex` returns |
| Paths.LastIndexConcat | stl3d-gui/modules/image_to_stl.py:58 | the last occurrence in `a + b` is the last in `b`, or the last in `a` when `b` has none |
| Paths.SplitExtJoins | stl3d-gui/modules/image_to_stl.py:58 | the stem and the extension `splitext` returns concatenate to the path |
| Paths.SplitExtSuffix | stl3d-gui/modules/image_to_stl.py:58 | the extension is empty, or one `.` followed by neither `.` nor `/` |
| Paths.BasenameFree | stl3d-gui/modules/image_to_stl.py:58 | the basename holds no `/` |
| Paths.BasenameSuffix | stl3d-gui/modules/image_to_stl.py:58 | the basename is a suffix of the path |
| Paths.JoinName | stl3d-gui/modules/image_to_stl.py:66 | joining a directory that does not end in `/` with a name free of `/` puts exactly one `/` between them, and the basename of the result is the name |
| Paths.SplitExtBelow | stl3d-gui/modules/stl_repair.py:270 | below a directory, `splitext` splits the file name alone |
| Paths.StampedFree | stl3d-gui/modules/image_to_stl.py:61-63 | a name stamped with `_<timestamp>` is free of `/` when its parts are |
| Paths.ImageOutputPathShape | stl3d-gui/modules/image_to_stl.py:57-66 | a path ending in `.stl` becomes `output/image-to-stl/<stem>[_<timestamp>].stl`, its directory dropped; any other path comes back unchanged and gets no timestamp |
| Paths.StlSplit | stl3d-gui/modules/image_to_stl.py:58 | a file name `<stem>.stl` whose stem is not all dots splits into the stem and `.stl` |
| Paths.TextOutputPathShape | stl3d-gui/modules/text_to_stl.py:52-58 | the text converter writes `output/text-to-stl/<filename>[_<timestamp>].stl`, and the basename of that path is the stamped file name |
| Paths.RepairNameFree | stl3d-gui/modules/stl_repair.py:261-265 | the repaired file's name (an explicit path's basename, or `<input stem>_repaired.stl`) holds no `/` |
| Paths.StemFree | stl3d-gui/modules/stl_repair.py:262 | the stem `splitext` returns lacks every character its argument lacks |
| Paths.RepairOutputPathShape | stl3d-gui/modules/stl_repair.py:258-271 | the repaired file lands directly in `output/stl-repair`, named after the explicit path's basename or `<input stem>_repaired.stl`, with `_<timestamp>` inserted before that name's extension when asked |
| Heightmaps.Snapshot | stl3d-gui/modules/topographic_layering.py:82-88 | the grid value of a 2-D array has its shape and agrees with it cell by cell |
| Heightmaps.SnapshotEqual | stl3d-gui/modules/topographic_layering.py:82-88 | an array holds a value grid exactly when every cell agrees |
| Heightmaps.SeqMin | stl3d-gui/modules/topographic_layering.py:54 | numpy's `min`: an element of the cells that no cell is below |
| Heightmaps.SeqMax | stl3d-gui/modules/topographic_layering.py:55 | numpy's `max`: an element of the cells that no cell exceeds |
| Heightmaps.GridExtremes | stl3d-gui/modules/topographic_layering.py:54-55 | the lowest and the highest cell bound every cell and are cells themselves |
| Heightmaps.Normalize | stl3d-gui/modules/topographic_layering.py:54-56 | normalisation fails (all NaN) exactly for a constant map, and otherwise keeps the map's shape (topographic-layering.py:26-30 and contour-crafting.py:28-32 are the same code) |
| Heightmaps.ConstantIffFlat | stl3d-gui/modules/topographic_layering.py:54-56 | a map is constant exactly when its minimum equals its maximum, the case where the division is `0/0` |
| Heightmaps.NormalizeRange | stl3d-gui/modules/topographic_layering.py:54-56 | every normalised cell lies in `[0, 1]`, is 0 exactly where the input is lowest and 1 exactly where it is highest, and the order of cells is kept |
| Heightmaps.NormalizedSpan | stl3d-gui/modules/topographic_layering.py:54-56 | a normalised map runs from exactly 0 to exactly 1 |
| Heightmaps.NormalizeUnit | stl3d-gui/modules/topographic_layering.py:54-56 | a map already spanning exactly `[0, 1]` is its own normalisation |
| Heightmaps.NormalizeIdempotent | stl3d-gui/modules/topographic_layering.py:54-56 | normalising a normalised map changes nothing |
| Heightmaps.DivMonotone | stl3d-gui/modules/topographic_layering.py:56 | dividing by a positive span keeps the order and the equality of values |
| ImageSizing.Trunc | stl3d-gui/modules/image_to_stl.py:111 | Python's `int()` on a float: the nearest integer on the side of zero |
| ImageSizing.TruncBelow | stl3d-gui/modules/image_to_stl.py:111 | truncating a value no larger than a non-negative `m` gives at most `m` |
| ImageSizing.TruncExact | stl3d-gui/modules/image_to_stl.py:111 | truncating a whole number gives it back |
| ImageSizing.RatioBelow | stl3d-gui/modules/image_to_stl.py:127-129 | scaling a non-negative length by `small / big <= 1` does not lengthen it |
| ImageSizing.ByRatioDivBelow | stl3d-gui/modules/image_to_stl.py:109-111 | dividing by an aspect ratio of at least 1 gives a side between 0 and the clamped width |
| ImageSizing.ByRatioMulBelow | stl3d-gui/modules/image_to_stl.py:112-115 | multiplying by an aspect ratio of at most 1 gives a side between 0 and the clamped height |
| ImageSizing.ByRatioDivExact | stl3d-gui/modules/image_to_stl.py:109-111 | an unclamped width gives back exactly the original height |
| ImageSizing.ByRatioMulExact | stl3d-gui/modules/image_to_stl.py:112-115 | an unclamped height gives back exactly the original width |
| ImageSizing.ScaledBelow | stl3d-gui/modules/image_to_stl.py:123-134 | the shorter side, scaled by `max_size / longer`, does not exceed `max_size` |
| ImageSizing.FitLongerSide | stl3d-gui/modules/image_to_stl.py:104-115 | with no size requested, the longer side becomes `min(orig, max_size)` and the other side follows the aspect ratio and is no longer |
| ImageSizing.FitWithinLimit | stl3d-gui/modules/image_to_stl.py:104-134 | with a non-negative limit the sizing always succeeds, and neither side exceeds `max_size`, in every branch (image-to-stl.py:74-104 is the same code) |
| ImageSizing.FitKeepsSmallImage | stl3d-gui/modules/image_to_stl.py:104-115 | an image within the limit, with no size requested, keeps its size |
| ImageSizing.FitOversizedRequest | image-to-stl.py:94-104 | a requested size over the limit is scaled down: its larger side becomes exactly `max_size` and the other side does not grow |
| ImageSizing.FitFailsOnZeroSide | image-to-stl.py:94-99 | the division `max_size / width` by a zero side fails only under a negative limit; a zero limit yields a 0 x 0 size |
| ReliefMap.Relief | stl3d-gui/modules/image_to_stl.py:147-151 | a grey value in 0..255 becomes a height between `base` and `base + max_height` |
| ReliefMap.UnitScale | stl3d-gui/modules/image_to_stl.py:151 | a level in 0..255, divided by 255 and scaled by a non-negative height, lies between 0 and that height |
| ReliefMap.MakeHeightMap | stl3d-gui/modules/image_to_stl.py:144-160 | the heights array has the image's shape and holds the relief grid: inversion, scaling, base, then the threshold mask set to the base |
| ReliefMap.ReliefBounds | stl3d-gui/modules/image_to_stl.py:147-160 | every height lies between the base and `base + max_height`; a masked pixel sits on the base and any other keeps its relief height |
| ReliefMap.MaskedIsLowest | stl3d-gui/modules/image_to_stl.py:153-160 | a pixel removed as background is a lowest point of the map |
| ReliefMap.ReliefOrder | stl3d-gui/modules/image_to_stl.py:147-151 | brighter pixels stand higher, or lower when inverted; inverting equals mirroring the value; black and white reach the two ends of the range |
| ReliefMap.ReliefMonotone | stl3d-gui/modules/image_to_stl.py:147-151 | the height is monotone in the grey value, increasing or, inverted, decreasing |
| ReliefMap.ReliefEnds | stl3d-gui/modules/image_to_stl.py:147-151 | black maps to the base and white to `base + max_height`, swapped when inverted |
| ReliefMap.ScaleMonotone | stl3d-gui/modules/image_to_stl.py:151 | the scaling `v / 255 * m` is monotone for non-negative `m` |
| ReliefMap.AddBorder | stl3d-gui/modules/image_to_stl.py:166-170 | the framed array is `2 border` larger on each axis and holds the bordered grid |
| ReliefMap.BorderKeepsMap | stl3d-gui/modules/image_to_stl.py:166-170 | the window inside the frame is the old map, and every cell outside the window is the base |
| ImageRelief.TargetSize | stl3d-gui/modules/image_to_stl.py:104-137 | the size the image is resampled to exists only when both sides are at least 1, since the resampling refuses an empty side |
| ImageRelief.HeightMapShape | stl3d-gui/modules/image_to_stl.py:144-170 | the height map is a rectangular grid of the image's rows, or `rows + 2 border` when framed, and `MapWidth` columns |
| ImageRelief.BuildHeightMap | stl3d-gui/modules/image_to_stl.py:144-170 | the array built holds the height map of the resampled pixels, framed when a border is asked for outside object-only mode |
| ImageRelief.BuildSolidMesh | stl3d-gui/modules/image_to_stl.py:253-354 | the fallback branch yields the closed solid over the array's heights |
| ImageRelief.SolidMeshProperties | stl3d-gui/modules/image_to_stl.py:259-354 | the closed solid over `r x c` cells has `2rc` vertices and `4(r-1)(c-1) + 4(c-1) + 4(r-1)` faces, every face a proper triangle over those vertices; its faces are the corrected solid's with both caps reversed, and once the map is at least 2 x 2 it is not consistently wound |
| ImageRelief.BuildObjectSurface | stl3d-gui/modules/image_to_stl.py:227-252 | the object branch yields the rescaled, face-reversed surface that marching cubes extracts from the voxel volume |
| ImageRelief.ObjectSurfaceProperties | stl3d-gui/modules/image_to_stl.py:227-252 | the object surface keeps the vertex and face counts and each first coordinate, flips the second to `rows - 1 - y`, reverses every face, and is consistently wound exactly when the extraction is |
| ImageRelief.Turned | stl3d-gui/modules/image_to_stl.py:360-377 | the quarter turns keep the number of vertices |
| ImageRelief.Facets | stl3d-gui/modules/image_to_stl.py:379-389 | one facet per face |
| ImageRelief.Export | stl3d-gui/modules/image_to_stl.py:356-389 | the turns followed by the facet fill yield the exported facets |
| ImageRelief.ExportedFacets | stl3d-gui/modules/image_to_stl.py:360-389 | facet `k` is face `k`'s corners after the turns, and its normal is the turned normal of the unturned facet |
| ImageRelief.ImageToStl | stl3d-gui/modules/image_to_stl.py:26-397 | a path comes back exactly when the conversion succeeds; it is the output path, stamped when asked, and the facets are those of a well-formed mesh after the turns |
| ImageRelief.FallbackWithoutFrame | stl3d-gui/modules/image_to_stl.py:166-170 | object-only mode without both libraries falls back to the closed solid over the unframed map, since the frame was skipped while object-only was still on (lines 253-256) |
| ImageRelief.SolidConversion | stl3d-gui/modules/image_to_stl.py:104-354 | outside object-only mode the conversion succeeds exactly when the sizing yields two non-empty sides, and then yields the closed solid over the framed height map of `height + 2 border` rows |
| ClosedSolid.BuildSolidVertices | stl3d-gui/modules/image_to_stl.py:259-271 | the two vertex loops yield the solid's vertex list: top points at the map's heights, then the same points at height 0 |
| ClosedSolid.SolidVertexAt | stl3d-gui/modules/image_to_stl.py:259-271 | the list has `2rc` vertices; position `i*c + j` holds cell `(i, j)` at `(j, rows-1-i, height)` and position `rc + i*c + j` the same point at height 0 |
| ClosedSolid.TopRow | stl3d-gui/modules/image_to_stl.py:276-287 | one row of the top surface loop yields two triangles per square of that row, with the corners in the order the source lists them |
| ClosedSolid.TopSurface | stl3d-gui/modules/image_to_stl.py:275-287 | the top surface loop yields two triangles for each of the `(r-1)(c-1)` squares, row after row, over the top block of vertices, corners in the source's order |
| ClosedSolid.BottomRow | stl3d-gui/modules/image_to_stl.py:294-305 | one row of the bottom surface loop, on the second block of `rc` vertices, corners in the source's order |
| ClosedSolid.BottomSurface | stl3d-gui/modules/image_to_stl.py:289-305 | the bottom surface loop: two triangles per square on the bottom block of vertices, corners in the source's order |
| ClosedSolid.FrontWallFaces | stl3d-gui/modules/image_to_stl.py:308-318 | the front wall loop: two triangles per segment of the first row, joining it to the bottom |
| ClosedSolid.BackWallFaces | stl3d-gui/modules/image_to_stl.py:320-330 | the back wall loop: two triangles per segment of the last row |
| ClosedSolid.LeftWallFaces | stl3d-gui/modules/image_to_stl.py:332-342 | the left wall loop: two triangles per segment of the first column |
| ClosedSolid.RightWallFaces | stl3d-gui/modules/image_to_stl.py:344-354 | the right wall loop: two triangles per segment of the last column |
| ClosedSolid.BuildSolidFaces | stl3d-gui/modules/image_to_stl.py:273-354 | all faces as the converters build them: the top surface, the bottom surface, then the front, back, left and right walls |
| ClosedSolid.IndexBounds | stl3d-gui/modules/image_to_stl.py:278-290 | top points take the first `rc` vertex positions and bottom points the next `rc` |
| ClosedSolid.IndexInjective | stl3d-gui/modules/image_to_stl.py:278-290 | different grid points have different vertex positions |
| ClosedSolid.OutlineOnGrid | stl3d-gui/modules/image_to_stl.py:273-354 | the three corners of every face are distinct grid points |
| ClosedSolid.PartFaceShape | stl3d-gui/modules/image_to_stl.py:273-354 | every face is a proper triangle of the `2rc` vertices; the top surface uses only top points and the bottom surface only bottom points |
| ClosedSolid.CorrectedFromParts | stl3d-gui/modules/image_to_stl.py:273-354 | every face of the corrected solid belongs to one of its six parts |
| ClosedSolid.CorrectedSplit | stl3d-gui/modules/image_to_stl.py:273-354 | the corrected face list is the six parts in the order the loops run |
| ClosedSolid.CapLength | stl3d-gui/modules/image_to_stl.py:275-305 | each surface, as written and corrected, has two faces per grid square |
| ClosedSolid.WallLength | stl3d-gui/modules/image_to_stl.py:307-354 | each wall has two faces per segment |
| ClosedSolid.SolidFaceCount | stl3d-gui/modules/image_to_stl.py:273-354 | the solid has `4(r-1)(c-1) + 4(c-1) + 4(r-1)` faces |
| ClosedSolid.CorrectedWellFormed | stl3d-gui/modules/image_to_stl.py:273-354 | every face of the corrected solid is a proper triangle over the `2rc` vertices; the first `2(r-1)(c-1)` faces lie in the top block and the next `2(r-1)(c-1)` in the bottom block |
| ClosedSolid.SolidWellFormed | stl3d-gui/modules/image_to_stl.py:273-354 | every face the converters build is a proper triangle over the `2rc` vertices; the first `2(r-1)(c-1)` faces lie in the top block and the next `2(r-1)(c-1)` in the bottom block |
| SolidWinding.OwnsOutline | stl3d-gui/modules/image_to_stl.py:273-354 | on a map of at least 2 x 2 cells, each face of the corrected solid is the owner of its three directed edges |
| SolidWinding.EdgeEnds | stl3d-gui/modules/image_to_stl.py:273-354 | a directed edge of a face joins two grid points whose owner is that face |
| SolidWinding.SharedEdgeSameFace | stl3d-gui/modules/image_to_stl.py:273-354 | two different faces of the corrected solid share no directed edge |
| SolidWinding.PartEdgeDistinct | stl3d-gui/modules/image_to_stl.py:273-354 | the faces within one part share no directed edge |
| SolidWinding.PartConsistent | stl3d-gui/modules/image_to_stl.py:273-354 | each of the six parts on its own is consistently wound |
| SolidWinding.DisjointParts | stl3d-gui/modules/image_to_stl.py:273-354 | faces of different parts share no directed edge |
| SolidWinding.SolidConsistent | stl3d-gui/modules/image_to_stl.py:273-354 | the corrected solid, its caps wound to match the walls, is consistently wound over a map of at least 2 x 2 cells: two faces meeting on an edge cross it in opposite directions |
| SolidWinding.ReversedEdges | stl3d-gui/modules/image_to_stl.py:252 | reversing a triangle reverses each of its directed edges |
| ClosedSolid.ReversedAll | stl3d-gui/modules/image_to_stl.py:252 | `faces[:, ::-1]` keeps the count and reverses each face |
| ClosedSolid.SurfacesReversed | stl3d-gui/modules/image_to_stl.py:273-354 | the converters' face list is the corrected solid with both surfaces reversed and the walls unchanged |
| SolidWinding.AsWrittenInconsistent | stl3d-gui/modules/image_to_stl.py:273-318 | as written, the first top triangle `[0, 1, c]` and the first front-wall triangle `[0, 1, rc]` both run from vertex 0 to vertex 1, so no map of at least 2 x 2 cells gives a consistently wound solid |
| Tiling.FlatInjective | stl3d-gui/modules/topographic_layering.py:106 | distinct points of a grid `w` wide have distinct flat indices `y*w + x` |
| Tiling.FlatBounds | stl3d-gui/modules/topographic_layering.py:106 | a point of a `rows x w` grid has a flat index in `0 .. rows*w - 1` |
| Tiling.TileLength | stl3d-gui/modules/topographic_layering.py:103-110 | a row-by-row double loop in which every cell appends `k` faces appends `rows * cols * k` |
| Tiling.TileAt | stl3d-gui/modules/topographic_layering.py:103-110 | the faces of cell `(y, x)` follow the complete rows above it and the earlier cells of its own row |
| Tiling.TileOwner | stl3d-gui/modules/topographic_layering.py:103-110 | every element the double loop appends comes from a cell inside the grid |
| Tiling.TileConsistent | stl3d-gui/modules/topographic_layering.py:103-110 | when each cell's faces are consistently wound and distinct cells share no directed edge, the whole tiling is consistently wound |
| Tiling.GridFacesAt | stl3d-gui/modules/topographic_layering.py:103-110 | slots `2k` and `2k+1` of the grid surface, for cell `k = y*(w-1) + x`, hold `[i, i+1, i+w]` and `[i+1, i+w+1, i+w]` with `i = y*w + x` |
| Tiling.TileWellFormed | stl3d-gui/modules/topographic_layering.py:103-110 | a tiling is a list of proper triangles over `n` vertices when every cell's faces are |
| Tiling.GridFacesCount | stl3d-gui/modules/topographic_layering.py:103-110 | a grid surface of `h x w` points has `2(h-1)(w-1)` faces |
| Tiling.GridFacesWellFormed | stl3d-gui/modules/topographic_layering.py:103-110 | every face of the grid surface is a proper triangle over its `h*w` points |
| Tiling.GridCellEdges | stl3d-gui/modules/topographic_layering.py:109-110 | two different triangles of the grid surface never run along the same directed edge |
| Tiling.GridConsistent | stl3d-gui/modules/topographic_layering.py:103-110 | the grid surface is consistently wound |
| GridMesh.SingleSlots | stl3d-gui/modules/topographic_layering.py:96-100 | in a double loop appending one element per cell, cell `(y, x)` lands at flat index `y*w + x` |
| GridMesh.GridVerticesAt | stl3d-gui/modules/topographic_layering.py:96-100 | there are `h*w` vertices and vertex `y*w + x` is `(x, h-1-y, g[y][x] * scale_z)` |
| GridMesh.GridVerticesHeights | stl3d-gui/modules/topographic_layering.py:98 | with a non-negative scale, every vertex height lies between `lo * scale_z` and `hi * scale_z` when every cell lies between `lo` and `hi` |
| GridMesh.VertexHeightBetween | stl3d-gui/modules/topographic_layering.py:98 | the same bound for a single vertex |
| GridMesh.BuildVertices | stl3d-gui/modules/topographic_layering.py:96-100 | the vertex loop yields the grid's vertex list (topographic-layering.py:60-64 is the same loop) |
| GridMesh.LiftRow | stl3d-gui/modules/topographic_layering.py:97-100 | the inner vertex loop appends row `y`'s vertices, left to right |
| GridMesh.BuildFaces | stl3d-gui/modules/topographic_layering.py:103-110 | the face loop yields the grid surface: two triangles per square (topographic-layering.py:67-74 is the same loop) |
| GridMesh.SquareRow | stl3d-gui/modules/topographic_layering.py:104-110 | the inner face loop appends the two triangles of each square of row `y` |
| Topographic.ResampleShape | stl3d-gui/modules/topographic_layering.py:79-89 | the strided sample has `h//r` rows of `w//r` cells |
| Topographic.ResampleCell | stl3d-gui/modules/topographic_layering.py:84-86 | cell `(y, x)` of the sample is input cell `(y*r, x*r)`, which exists |
| Topographic.ResampleRange | stl3d-gui/modules/topographic_layering.py:79-89 | the strided sample keeps the range of the input's cells (no averaging) |
| Topographic.Downsample | stl3d-gui/modules/topographic_layering.py:79-89 | the new `(h//r) x (w//r)` array holds the strided sample of the map (topographic-layering.py:43-53 is the same code) |
| Topographic.CopyRow | stl3d-gui/modules/topographic_layering.py:85-86 | one pass of the inner loop fills output row `y` from input row `y*r` and leaves the other rows alone |
| Topographic.Surface | stl3d-gui/modules/topographic_layering.py:71-89 | the map the vertex loop reads keeps its shape, or shrinks to `h//r x w//r` when `resolution > 1` |
| Topographic.CreateMesh | stl3d-gui/modules/topographic_layering.py:58-124 | `create_mesh` gives one facet per grid face, each facet the face's three vertices, and every face index points into the vertex list (topographic-layering.py:33-88 builds the same mesh) |
| Topographic.SurfaceHeights | stl3d-gui/modules/topographic_layering.py:54-100 | without smoothing, a map normalised into `[0, 1]` and a non-negative scale give every vertex a height in `[0, scale_z]`, with or without downsampling |
| Topographic.SquareEdges | stl3d-gui/modules/topographic_layering.py:106-110 | the two triangles of square `(y, x)` run along its six directed edges |
| Topographic.GridDiagonalPaired | stl3d-gui/modules/topographic_layering.py:109-110 | the diagonal of every square is run along in both directions |
| Topographic.GridRowEdgePaired | stl3d-gui/modules/topographic_layering.py:103-110 | a horizontal edge between two rows of squares is run along in both directions |
| Topographic.GridColumnEdgePaired | stl3d-gui/modules/topographic_layering.py:103-110 | a vertical edge between two columns of squares is run along in both directions |
| ContourRelief.AddContour | stl3d-gui/modules/contour_crafting.py:256-281 | one contour of at least three points appends its points at level `z`, its fan over the new vertices, and advances the counter by its point count |
| ContourRelief.LiftContour | stl3d-gui/modules/contour_crafting.py:268-272 | the vertex loop appends every point at level `z`, the y axis turned upwards, in order |
| ContourRelief.FanContour | stl3d-gui/modules/contour_crafting.py:275-281 | the face loop appends the fan `[start + j, start + (j+1) % n, start]` over the `n` new vertices |
| ContourRelief.TakeStep | stl3d-gui/modules/contour_crafting.py:268-281 | taking one more element of a sequence extends the prefix by that element |
| ContourRelief.CreateContourMesh | stl3d-gui/modules/contour_crafting.py:216-294 | the base plate and then one fan per contour of at least three points, contours and heights paired up to the shorter list; every face index is below the vertex count and there is one facet per face, holding its three vertices (contour-crafting.py:190-256 builds the same mesh) |
| ContourRelief.FanInBlock | stl3d-gui/modules/contour_crafting.py:275-281 | a fan has one triangle per point, each within its contour's own vertices |
| ContourRelief.MeshStep | stl3d-gui/modules/contour_crafting.py:252-281 | processing one more contour keeps every face index below the vertex count |
| ContourRelief.MeshCounts | stl3d-gui/modules/contour_crafting.py:236-281 | the mesh has the four corners plus one vertex per point of each contour of at least three points, two faces fewer than vertices, and every face index below the vertex count |
| ContourRelief.PlateFirst | stl3d-gui/modules/contour_crafting.py:236-250 | the plate's four corners and two triangles stay at the front whatever contours follow |
| ContourRelief.ContourPlaced | stl3d-gui/modules/contour_crafting.py:252-281 | point `j` of a kept contour `k` is the vertex numbered after the earlier contours' points, at `(x, height - y, level)`, and its fan follows the earlier fans |
| ContourRelief.FanDegenerate | stl3d-gui/modules/contour_crafting.py:275-281 | the first and last triangles of every fan repeat the fan's first vertex (zero-area facets), and no other triangle does |
| ContourRelief.ProperFanTrimmed | stl3d-gui/modules/contour_crafting.py:275-281 | the fan without those two triangles is the `n - 2` triangle fan from the first point, all proper and within the contour's vertices |
| ContourRelief.FanAt | stl3d-gui/modules/contour_crafting.py:277-281 | before the last point, fan triangle `j` joins point `j` to the next one and back to the first point |
| ContourRelief.AdaptiveContours | stl3d-gui/modules/contour_crafting.py:166-186 | the adaptive path's loops compute its choice: nothing unless three contours pass the size filter (contour-crafting.py:147-165 is the same code) |
| ContourRelief.SizeFilteredMembers | stl3d-gui/modules/contour_crafting.py:166-171 | a contour passes the size filter exactly when it is one of the contours and its area lies strictly between 100 and nine tenths of the image |
| ContourRelief.AdaptiveGraded | stl3d-gui/modules/contour_crafting.py:178-186 | the adaptive choice keeps only contours of at least five points, from the filtered list, with strictly rising heights in `(0, 1]` |
| ContourRelief.DivMonotone | stl3d-gui/modules/contour_crafting.py:184 | dividing by a positive length keeps a strict order |
| ContourRelief.PhotoContours | stl3d-gui/modules/contour_crafting.py:119-155 | the photo path's loops, over OpenCV's contours per threshold, compute its choice |
| ContourRelief.PhotoThresholdCount | stl3d-gui/modules/contour_crafting.py:138-149 | at an even threshold every passing contour is kept; at an odd one passing contours are kept only while fewer than five are kept in all |
| ContourRelief.PhotoGraded | stl3d-gui/modules/contour_crafting.py:125-149 | the photo path's heights are `(i + 1) / num` in threshold order, so they lie in `(0, 1]` and never decrease |
| ContourRelief.ThresholdGraded | stl3d-gui/modules/contour_crafting.py:138-149 | one threshold's contours keep the heights graded up to that threshold's height |
| ContourRelief.ExtractedContours | stl3d-gui/modules/contour_crafting.py:120-188 | the contours used are the photo path's when photo mode found at least three, else the adaptive path's when it applies, else the fallback's |
| ContourRelief.ChosenGraded | stl3d-gui/modules/contour_crafting.py:120-186 | whenever the photo or the adaptive path supplies the contours, every height lies in `(0, 1]` and the heights never decrease |
| TextRelief.CanvasBounds | stl3d-gui/modules/text_to_stl.py:63-65 | the canvas is `max(len(text) * font_size, 200)` wide and `max(2 font_size, 100)` high: never below 200 x 100 and always room for the text's estimated size (text-to-stl.py:31-32 is the same code) |
| TextRelief.TextCentred | stl3d-gui/modules/text_to_stl.py:119-125 | the text is centred: on each axis the room after it equals the room before it or exceeds it by one pixel (text-to-stl.py:51-56 is the same code) |
| TextRelief.FieldHeights | stl3d-gui/modules/text_to_stl.py:146-168 | heights run from 0 (white) to the thickness (black); without a base a pixel stands above 0 exactly when it is darker than 200 and the thickness is positive; with a base every pixel keeps its darkness |
| TextRelief.ScaleByte | stl3d-gui/modules/text_to_stl.py:168 | `f / 255 * t` lies in `[0, t]` and is positive exactly when `f` and `t` are |
| TextRelief.TextBoxes | stl3d-gui/modules/text_to_stl.py:180-260 | the box loop: every text pixel, in row-major order, with a text 4-neighbour gets a box of eight vertices and twelve faces (text-to-stl.py:118-184 is the same loop) |
| TextRelief.BoxOwned | stl3d-gui/modules/text_to_stl.py:236-259 | every directed edge of a box triangle belongs to that triangle alone, and its reverse belongs to another triangle of the box |
| TextRelief.BoxConsistent | stl3d-gui/modules/text_to_stl.py:236-259 | no two triangles of a box run along the same directed edge |
| TextRelief.BoxPaired | stl3d-gui/modules/text_to_stl.py:236-259 | a box is closed: every edge of one of its triangles is run along backwards by another |
| TextRelief.BoxProper | stl3d-gui/modules/text_to_stl.py:236-259 | a box's twelve triangles are proper and keep to its own eight vertices |
| TextRelief.BoxesLayout | stl3d-gui/modules/text_to_stl.py:200-259 | box `k` is the box of the `k`-th kept pixel, over vertices `8k .. 8k+7` and faces `12k .. 12k+11` |
| TextRelief.BoxListProper | stl3d-gui/modules/text_to_stl.py:200-259 | the boxes' faces are proper triangles, box `k`'s over its own vertices |
| TextRelief.BoxListConsistent | stl3d-gui/modules/text_to_stl.py:200-259 | no two faces of the boxes run along the same directed edge |
| TextRelief.BoxListPaired | stl3d-gui/modules/text_to_stl.py:200-259 | every box of the list is closed |
| TextRelief.FieldSurface | stl3d-gui/modules/text_to_stl.py:264-287 | with a base there is one vertex per pixel, vertex `y*w + x` over pixel `(y, x)` at the height of its darkness, and the faces are the grid surface's: proper, within the vertices and consistently wound |
| TextRelief.TextToStl | stl3d-gui/modules/text_to_stl.py:27-333 | the output path, stamped when asked, comes back exactly when a mesh is written, and the mesh is the one for the rendered canvas (text-to-stl.py:217, 250-257 return the unstamped path under the same rule) |
| TextRelief.BaseAlwaysWritten | stl3d-gui/modules/text_to_stl.py:264-290 | with a base a mesh is always written, since the canvas of at least 200 x 100 pixels gives vertices and faces |
| TextRelief.NoBaseMesh | stl3d-gui/modules/text_to_stl.py:170-290 | without a base a mesh is written exactly when some text pixel has a text neighbour; it has 8 vertices and 12 faces per such pixel, all proper, in range, consistently wound and closed |
| TextRelief.KeptExactly | stl3d-gui/modules/text_to_stl.py:191-200 | a candidate gets a box exactly when it has a text 4-neighbour inside the canvas |
| TextRelief.BoxedPixels | stl3d-gui/modules/text_to_stl.py:173-200 | a pixel gets a box exactly when it and one of its 4-neighbours are text pixels |
| TextRelief.SelectionInside | stl3d-gui/modules/text_to_stl.py:185 | `np.where` yields only pixels of the canvas where the mask holds |
| Repair.InsertPermutes | stl3d-gui/modules/stl_repair.py:72-73 | one insertion step of the sort adds exactly the new entry and drops nothing |
| Repair.InsertRanked | stl3d-gui/modules/stl_repair.py:72-73 | inserting an entry that comes later in the split than every ranked entry keeps the list ranked |
| Repair.SortBySizeRanks | stl3d-gui/modules/stl_repair.py:72-73 | the stable descending sort by face count ranks the entries (largest first, ties in split order) and is a permutation |
| Repair.RankingEntries | stl3d-gui/modules/stl_repair.py:55-73 | the ranking holds one `(index, face count)` entry per component and nothing else |
| Repair.LargestFirst | stl3d-gui/modules/stl_repair.py:72-79 | the first ranked component is a largest one, the earliest of the largest in the split |
| Repair.KeepsExactly | stl3d-gui/modules/stl_repair.py:81-86 | a component is kept exactly when `5 * size >= main_size`, the integer form of `size >= 0.2 * main_size` |
| Repair.Classify | stl3d-gui/modules/stl_repair.py:85-89 | the classification loop lists the kept and the dropped indices in ranking order |
| Repair.ClassifiedMembers | stl3d-gui/modules/stl_repair.py:85-89 | an index is kept (dropped) exactly when it is listed with a size that passes (fails) the threshold, and the two lists together are as long as the ranking |
| Repair.MainHead | stl3d-gui/modules/stl_repair.py:78-89 | when the first ranked entry is kept, its index heads the kept list |
| Repair.ComponentsClassified | stl3d-gui/modules/stl_repair.py:47-89 | every component lands in exactly one of the two lists, kept exactly when it has at least 20 percent of the largest one's faces; the largest (the earliest, on a tie) is always kept and listed first (stl-fixer.py:85-101 is the same code) |
| Repair.ConcatenateWellFormed | stl3d-gui/modules/stl_repair.py:102-103 | concatenating well-formed meshes gives a well-formed mesh holding all their faces |
| Repair.NothingDropped | stl3d-gui/modules/stl_repair.py:85-95 | the mesh is left as it is exactly when every component has at least 20 percent of the largest one's faces |
| Repair.FilteredKept | stl3d-gui/modules/stl_repair.py:95-103 | when a component is dropped, the result is the kept components in ranking order: the largest alone when only it is kept, otherwise their well-formed concatenation holding all their faces (stl-fixer.py:103-116 is the same code) |
| Repair.LargeEnoughNonDegenerate | stl3d-gui/modules/stl_repair.py:110-113 | a triangle whose area exceeds the tolerance has three distinct corners |
| Repair.ProperFacesSpec | stl3d-gui/modules/stl_repair.py:109-119 | the degenerate-triangle step as intended (the call as written is under "## Findings") keeps exactly the faces of area above `1e-8`, in order; they are proper triangles over the vertices |
| Repair.ProperFacesKeepsAll | stl3d-gui/modules/stl_repair.py:109-121 | the filter leaves the face list unchanged exactly when every triangle exceeds the tolerance (`np.all(valid_faces)`), and otherwise drops at least one face |
| Repair.ProperFacesNone | stl3d-gui/modules/stl_repair.py:109-121 | the filter leaves no face exactly when no triangle exceeds the tolerance (every entry of `valid_faces` is false) |
| Repair.AsWrittenAgrees | stl3d-gui/modules/stl_repair.py:109-121 | the step as written passes the kept faces' vertex triples to `update_faces` where a face mask belongs. It agrees with the intended filter exactly when every face is large enough (the call is skipped) or none is (the empty index clears the faces). When only some faces are too small, it yields no mesh, while the filter keeps a shorter, non-empty face list |
| Repair.WitnessAreas | stl3d-gui/modules/stl_repair.py:112-113 | over `(0,0,0)`, `(1,0,0)`, `(2,0,0)`, `(0,1,0)`, the triangle `[0, 1, 2]` is within the tolerance and `[0, 1, 3]` is above it |
| Repair.PartlyFlatLost | stl3d-gui/modules/stl_repair.py:109-121 | over those vertices, with faces `[0, 1, 2]` and `[0, 1, 3]`, the intended filter keeps `[0, 1, 3]` and the step as written yields no mesh (it indexes face row 3 of two) |
| Repair.CleanModel | stl3d-gui/modules/stl_repair.py:25-129 | `clean_model` with its component loop and classification computes the cleaned mesh |
| Repair.CleanedProper | stl3d-gui/modules/stl_repair.py:25-129 | a mesh cleaned with the intended degenerate-triangle step is well formed and holds only proper triangles, each of area above the tolerance |
| Repair.IterateLast | stl3d-gui/modules/stl_repair.py:313-333 | `k + 1` repair passes are one more pass after `k` |
| Repair.RepairLoop | stl3d-gui/modules/stl_repair.py:309-337 | the loop runs the number of passes the stopping rule gives and returns the mesh after that many passes (stl-fixer.py:290-319 is the same loop) |
| Repair.PassCountSpec | stl3d-gui/modules/stl_repair.py:313-337 | the loop makes at most `max_iterations` passes, none when the mesh is already watertight and consistently wound; it ends settled, just made watertight, or at the limit, and no earlier pass made the mesh watertight |
| Repair.MakeWatertight | stl3d-gui/modules/stl_repair.py:131-237 | the first stage of the ladder that succeeds gives the mesh: hole filling, simplification, then the hull and voxel stages only before the timeout, and the simplified mesh when every stage fails (stl-fixer.py:144-234 is the same ladder) |
| Repair.LadderOutcome | stl3d-gui/modules/stl_repair.py:147-237 | the ladder's mesh is watertight from hole filling or simplification, has faces from the hull or voxel stage, and is the non-watertight simplified mesh when every stage fails; once time is up neither costly stage runs |
| Repair.SimplifiedLargest | stl3d-gui/modules/stl_repair.py:165-180 | with several components the simplified mesh is built from a largest one |
| Repair.AggressiveOnlyWhenLeaking | stl3d-gui/modules/stl_repair.py:300-343 | the ladder runs only when aggressive repair is on and the loop left the mesh leaking; otherwise the loop's mesh is the result |
| Repair.RepairMesh | stl3d-gui/modules/stl_repair.py:300-343 | cleaning when asked, the repair loop, then the ladder when asked and needed |
| Repair.FixStl | stl3d-gui/modules/stl_repair.py:239-373 | the output path comes back exactly when the mesh loads, and the repaired mesh is what is written there; a load failure is raised again |
| Repair.FixStlScript | stl-fixer.py:237-354 | the stand-alone repair reports success exactly when the mesh loads, and then writes the repaired mesh |
| Repair.ValidateStl | stl3d-gui/modules/stl_repair.py:375-418 | a mesh is valid exactly when it loads and is watertight, consistently wound and not empty; statistics come back exactly when it loads, with its vertex and face counts (stl-fixer.py:357-388 is the same check) |
| ObjectMode.ForegroundIsUnmasked | stl3d-gui/modules/image_to_stl.py:179-191 | at one threshold the object pixels are exactly those the background mask leaves out; the default thresholds (50 inverted, 150 otherwise) keep the object below 50 or above 150 |
| ObjectMode.SliceBound | stl3d-gui/modules/image_to_stl.py:223 | where a Python slice bound lands on an axis of length `n`: always within `0 .. n` |
| ObjectMode.InteriorExact | stl3d-gui/modules/image_to_stl.py:221-224 | the slice `3:n-3` is exactly the indices at least 3 away from both ends, even where `n-3` is negative |
| ObjectMode.BorderMask | stl3d-gui/modules/image_to_stl.py:222-223 | the border mask is true exactly outside the interior slice |
| ObjectMode.ObjectMask | stl3d-gui/modules/image_to_stl.py:178-224 | the selection step computes the thresholded selection, cleaned up, cut to the threshold and to the interior |
| ObjectMode.ObjectMaskChosen | stl3d-gui/modules/image_to_stl.py:178-224 | a pixel is selected exactly when the clean-up selects it, it is past the threshold, and it lies at least three pixels from every edge |
| ObjectMode.SmallImageEmpty | stl3d-gui/modules/image_to_stl.py:221-224 | an image six pixels or fewer across in either direction has nothing selected |
| ObjectMode.ZSize | stl3d-gui/modules/image_to_stl.py:232 | `int(max_height * 2)` layers; two or more only when `max_height >= 1` |
| ObjectMode.Filled | stl3d-gui/modules/image_to_stl.py:239-240 | the slice `0:max(1, z)` fills no more layers than the volume has |
| ObjectMode.FillVolume | stl3d-gui/modules/image_to_stl.py:233-240 | the filling loop yields the zeroed volume with every selected column filled from layer 0 up to its height |
| ObjectMode.ColumnBounds | stl3d-gui/modules/image_to_stl.py:236-240 | for heights in the relief's range and at least two layers, a selected column fills between 1 and `z_size - 1` layers, so its floor is filled and its top layer empty; a higher pixel fills at least as many layers |
| ObjectMode.ColumnHeightBounds | stl3d-gui/modules/image_to_stl.py:239 | the column height `z_height` lies in `0 .. z_size - 1` and grows with the pixel's height |
| ObjectMode.LayerRange | stl3d-gui/modules/image_to_stl.py:239 | heights from the base to `base + max_height` fall on layers `0 .. z_size - 1`, in order |
| ObjectMode.FilledIs | stl3d-gui/modules/image_to_stl.py:240 | a column height within the volume fills `max(1, z)` layers |
| ObjectMode.LayerBounds | stl3d-gui/modules/image_to_stl.py:239 | truncation keeps a value in `0 .. d` and keeps the order of two values |
| ObjectMode.TruncMonotone | stl3d-gui/modules/image_to_stl.py:239 | truncation of non-negative values is monotone |
| ObjectMode.VolumeShape | stl3d-gui/modules/image_to_stl.py:233-240 | a selected pixel's column is filled at layer 0 and empty at the top layer; an unselected pixel's column is empty |
| ObjectMode.RescaleVertices | stl3d-gui/modules/image_to_stl.py:245-248 | the three column assignments rescale every vertex in place |
| ObjectMode.RescaledRange | stl3d-gui/modules/image_to_stl.py:245-248 | x is kept, the y flip is undone by flipping again, and layers `0 .. z_size - 1` map onto heights `0 .. max_height`, floor to floor and top to top |
| ObjectMode.Flipped | stl3d-gui/modules/image_to_stl.py:252 | `faces[:, ::-1]` keeps the count and reverses every directed edge of every face |
| ObjectMode.FlippedInvolution | stl3d-gui/modules/image_to_stl.py:252 | reversing twice restores the faces, keeps every index in range, and keeps a consistently wound surface consistent |
| Extrusion.CountPrefix | image-to-stl.py:274-277 | a double loop appending one item per selected pixel has appended `Count(y, x)` items before pixel `(y, x)` |
| Extrusion.TotalLength | image-to-stl.py:274-284 | each vertex layer holds one vertex per selected pixel |
| Extrusion.RankSlot | image-to-stl.py:274-299 | item `vertex_map[y, x]` of a layer is the item of pixel `(y, x)` |
| Extrusion.RankBijective | image-to-stl.py:291-299 | the numbering is exact: a selected pixel's number lies in `0 .. vertex_counter - 1`, the `k`-th selected pixel in row-major order gets `k`, and no two selected pixels share a number |
| Extrusion.VertexMap | image-to-stl.py:291-299 | the numbering loop fills a `-1` map with each selected pixel's rank and counts the selected pixels |
| Extrusion.TopVertices | image-to-stl.py:272-277 | the top layer loop: one vertex per selected pixel at its height |
| Extrusion.TopRow | image-to-stl.py:275-277 | the inner loop appends row `i`'s selected pixels, left to right |
| Extrusion.BottomVertices | image-to-stl.py:279-284 | the bottom layer loop: one vertex per selected pixel at the base height |
| Extrusion.BottomRow | image-to-stl.py:282-284 | the inner loop of the bottom layer |
| Extrusion.LayersAt | image-to-stl.py:272-299 | both layers have one vertex per selected pixel, and vertex `vertex_map[y, x]` is that pixel's, at its height on top and at the base below |
| Extrusion.TopSquareRow | image-to-stl.py:303-316 | the squares of row `i` give their triangles, left to right |
| Extrusion.TopSquareAt | image-to-stl.py:305-316 | a square gives `[v1, v2, v3]` when those three pixels are selected and `[v2, v4, v3]` when those are |
| Extrusion.TopFaceList | image-to-stl.py:301-316 | the square loop over the vertex map yields the top triangles |
| Extrusion.RankRange | image-to-stl.py:291-299 | every map entry is -1 or the number of a selected pixel |
| Extrusion.RankDistinct | image-to-stl.py:291-299 | distinct selected pixels have distinct numbers |
| Extrusion.SquareWellFormed | image-to-stl.py:305-316 | a square of distinct numbers below `n` gives proper triangles over `n` vertices |
| Extrusion.TopCellWellFormed | image-to-stl.py:305-316 | a square's triangles use the numbers of distinct selected pixels |
| Extrusion.TopFacesWellFormed | image-to-stl.py:301-316 | the top triangles are proper triangles over the top layer |
| Extrusion.BottomFaces | image-to-stl.py:318-324 | one bottom triangle per top triangle |
| Extrusion.BottomFaceList | image-to-stl.py:318-324 | the loop over the top triangles yields the bottom triangles |
| Extrusion.UndersideMirrors | image-to-stl.py:318-324 | each bottom triangle is its top twin moved into the bottom layer and run the other way round: proper, with every directed edge of the twin reversed |
| Extrusion.SideRow | image-to-stl.py:331-351 | the contour pixels of row `i` give their side quads, left to right |
| Extrusion.SidePixel | image-to-stl.py:332-351 | a contour pixel gives a quad to its right neighbour and one to its lower neighbour, each when that neighbour is selected |
| Extrusion.SideFaceList | image-to-stl.py:326-351 | the contour loop over the vertex map yields the side faces |
| Extrusion.SideCellWellFormed | image-to-stl.py:332-351 | a quad joins a pixel's top and bottom vertices to its neighbour's, all four distinct and below `2n` |
| Extrusion.QuadsWellFormed | image-to-stl.py:340-351 | both quads between two distinct top vertices below `n` are proper triangles over `2n` vertices |
| Extrusion.SideFacesWellFormed | image-to-stl.py:326-351 | the side faces are proper triangles over both layers |
| Extrusion.Extrude | image-to-stl.py:261-354 | the extrusion yields both vertex layers and the top, bottom and side faces |
| Extrusion.ExtrusionWellFormed | image-to-stl.py:261-354 | the extruded mesh has one top and one bottom vertex per selected pixel, and its faces are proper triangles over them, top triangles in the top layer and bottom triangles in the bottom layer |
| ImageScript.ScriptImageToStl | image-to-stl.py:14-478 | the file is written exactly when the script's conversion succeeds (an empty extrusion with a turn asked for fails at the turn), and it holds the facets of a well-formed mesh after the turns |
| ImageScript.ScriptVersusDesktop | image-to-stl.py:147-459 | the script and the desktop converter build the same mesh outside object-only mode and whenever both libraries are present; without the morphology library the script fails where the desktop converter builds the closed solid; without marching cubes the script extrudes the selection where the desktop converter builds the closed solid, and fails exactly when the extrusion has no vertex and a turn is asked for |
| ImageScript.SmallObjectExtruded | image-to-stl.py:257-459 | in object-only mode without marching cubes, an image at most six pixels across selects nothing, so the script fails exactly when a turn is asked for and otherwise yields a mesh with no vertex |
| ImageScript.ExtrudedObject | image-to-stl.py:257-354 | without marching cubes the object has a top and a bottom vertex per selected pixel, numbered by the pixel's rank, at its height and at the base; every face is a proper triangle over them, top triangles on the top layer and bottom triangles on the bottom layer |

## Left out

- File and console I/O: image decoding, STL loading and writing, directory creation, debug images, progress bars and printed messages. Each builder returns the mesh it would write; loading an STL is a parameter that may fail.
- The clock: the timestamp in output names and the elapsed time of the repair ladder are parameters.
- Library algorithms are parameters whose results the model takes as given: PIL's resampling, smoothing, blur, mirroring and font rendering; SciPy's morphology and Gaussian filter; scikit-image's marching cubes; OpenCV's contour finder, adaptive threshold, edge detectors and polyline simplification; trimesh's deduplication, splitting, hole filling, normal fixing, convex hull, voxel remeshing and its watertight and winding checks. No welding, orientation or hole-filling algorithm is modelled, since the repository has none.
- Floating point: heights are exact `real`s and pixel values integers, so `float32` rounding is not modelled. The `0.2` component factor is the exact integer rule `5 * size >= main_size`. The `1e-8` area tolerance is a predicate on an area the mesh library computes. A constant map's NaN normalisation is `None`.
- The original image size is an input: how the picture was loaded and what it looked like before resampling are not modelled.
- ContourRelief.ExtractedContours: the fixed-level fallback of `extract_contours`, which thresholds at `np.arange` levels, is a parameter. Its floating-point level list would need IEEE rounding to model, so only the photo and adaptive paths are computed.
- TextRelief.TextToStl: the base plate added under the relief when a base of positive height is asked for (a library box joined to the mesh) is not part of the returned mesh. The stand-alone script's `output_dir` argument is taken at its default, `output/text-to-stl`.
- ImageSizing.FitSize, ImageSizing.ByRatioDiv, ImageSizing.ByRatioMul: Python computes the aspect ratio and the scale factor as float64 quotients and then multiplies or divides by them, so a side can come out one pixel below the exact quotient the model computes (`int(9 / (9 / 7))` is 6, `int(49 * (1 / 49))` is 0). The model's sizes are the exact ones.
- ImageSizing.ByRatioDivExact, ImageSizing.ByRatioMulExact, ImageSizing.FitKeepsSmallImage: these hold for exact quotients only; in the program a 9 x 7 image within the limit comes out 9 x 6, and a 1 x 49 image gets width 0, so its resize fails.
- ImageRelief.SolidConversion, ImageRelief.ImageToStl, ImageScript.ScriptImageToStl: they take their sizes from `FitSize`, so for the images above they build a map one row or column short of the program's, or succeed where the program's resize fails.
- Repair.ProperFacesSpec, Repair.CleanModel, Repair.CleanedProper, Repair.RepairMesh, Repair.FixStl, Repair.FixStlScript: the cleaner's degenerate-triangle step is modelled as the filter its comment describes, keeping the faces of area above the tolerance. As written (stl_repair.py:121, stl-fixer.py:133) it hands `update_faces` vertex triples instead of a face mask, so a mesh with some, but not all, faces too small makes the program raise or carry a garbled face array. When every face is too small, the faces are cleared as the filter would clear them. What happens after that is not modelled (see "## Findings", `AsWrittenDropDegenerate`).
- ContourRelief.AdaptiveContours: the stand-alone script computes the fixed levels (`step`, `np.arange`) at contour-crafting.py:132-133, before the adaptive threshold. With zero contours asked for or a flat map, the script can fail there before reaching the adaptive path. The desktop module computes them only in its fallback (contour_crafting.py:193-194), and the model follows it.
- Mesh meta-data and statistics beyond vertex and face counts (volume, Euler number) are not modelled.
- Meshes are values: trimesh's in-place updates, and any aliasing between the mesh objects the repair code passes around, are modelled as functions returning new meshes.
- The script `stl-reducer.py` and `stl-repair-tool.py` are not part of this model: they only route files through pymeshlab and trimesh calls.
- The Tk user interface, threading and output redirection are not part of this model, and neither are the command-line parsing and the `input()` prompts of the scripts. The only exception is the numeric field's keystroke rule.

## Findings

| source | as written | input that shows it | evidently intended | confidence | as-written member | corrected member |
|---|---|---|---|---|---|---|
| stl3d-gui/modules/image_to_stl.py:273-354 (also image-to-stl.py:355-437) | the top and bottom surfaces of the closed solid are wound the opposite way to its four walls, so a cap triangle and a wall triangle run along the same directed edge | any map of at least 2 x 2 cells; with 2 x 2, the top triangle `[0, 1, 2]` and the front-wall triangle `[0, 1, 4]` both run from vertex 0 to vertex 1 | a consistently wound closed solid: caps with corners 2 and 3 swapped, so every edge is run along in opposite directions by its two faces | medium, not executed | SolidWinding.AsWrittenInconsistent | SolidWinding.SolidConsistent (about ClosedSolid.CorrectedSolidFaces) |
| stl3d-gui/modules/stl_repair.py:109-121 (also stl-fixer.py:121-133) | `mesh_data.update_faces(mesh_data.faces[valid_faces])` passes the kept faces' vertex triples where `update_faces` takes a face mask (the deduplication step at line 45 passes `unique_faces()`, a mask). The library then indexes the face array with vertex numbers: when some but not all faces are dropped, this raises once a vertex number reaches the face count and otherwise leaves an array of triples of triples | vertices `(0,0,0)`, `(1,0,0)`, `(2,0,0)`, `(0,1,0)` with faces `[0, 1, 2]` (flat) and `[0, 1, 3]`: the kept triple `[0, 1, 3]` names face row 3 of two, an `IndexError` | `update_faces(valid_faces)`, keeping exactly the faces of area above the tolerance | medium, not executed (rests on the library's documented `update_faces`) | Repair.PartlyFlatLost | Repair.ProperFacesSpec |
