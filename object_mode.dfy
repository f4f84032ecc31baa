/** The object-only mode of the image converters: the pixels that belong to the
    object (those past a threshold, cleaned up by a chain of morphological operations,
    kept inside the original selection and away from the image edge), the voxel
    volume stacked over them, and the post-processing of the surface that marching
    cubes extracts from that volume. */
module ObjectMode {
  import opened Mesh
  import opened Heightmaps
  import opened ReliefMap
  import opened ImageSizing

  /** A boolean image: row `y`, column `x`. */
  type Mask = seq<seq<bool>>

  /** A boolean voxel volume: row, column, layer. */
  type Volume = seq<seq<seq<bool>>>

  function MaskAt(m: Mask, y: int, x: int): bool
  {
    0 <= y < |m| && 0 <= x < |m[y]| && m[y][x]
  }

  /** The threshold the object is cut at: the one given, else 50 for an inverted
      image and 150 otherwise. */
  function EffectiveThreshold(threshold: Option<int>, invert: bool): int
  {
    if threshold.Some? then threshold.value else if invert then 50 else 150
  }

  /** A pixel belongs to the object when it is brighter than the threshold, or darker
      when the image is inverted. */
  predicate Foreground(v: int, invert: bool, t: int)
  {
    if invert then v < t else v > t
  }

  /** At the same threshold the object is exactly what the background mask of the
      height map leaves out, and the default thresholds keep the object to one side of
      the grey-scale middle. */
  lemma ForegroundIsUnmasked(v: int, invert: bool, threshold: Option<int>)
    ensures var t := EffectiveThreshold(threshold, invert);
      Foreground(v, invert, t) <==> !Masked(v, invert, t)
    ensures threshold.None? && Foreground(v, invert, EffectiveThreshold(threshold, invert)) ==>
      if invert then v < 50 else v > 150
  {
  }

  /** The selection before any clean-up, over the `|px| x w` image. */
  function RawMask(px: Pixels, w: nat, invert: bool, t: int): Mask
  {
    seq(|px|, y => seq(w, x => Foreground(PixelAt(px, y, x), invert, t)))
  }

  // ----- the frame of excluded pixels -----

  /** The padding kept free around the object. */
  const Padding := 3

  /** Where a slice bound `i` of Python's `a[i:]` lands on an axis of length `n`: a
      negative bound counts from the end, and every bound is clipped to `0..n`. */
  function SliceBound(i: int, n: nat): (b: nat)
    ensures b <= n
  {
    if i < 0 then (if i + n < 0 then 0 else i + n) else if i > n then n else i
  }

  /** Index `k` lies in the slice `lo:hi` of an axis of length `n`. */
  predicate InSlice(k: int, lo: int, hi: int, n: nat)
  {
    SliceBound(lo, n) <= k < SliceBound(hi, n)
  }

  /** Cell `(y, x)` lies in the block `3:rows-3, 3:cols-3` that the frame leaves out. */
  predicate Interior(rows: nat, cols: nat, y: int, x: int)
  {
    InSlice(y, Padding, rows - Padding, rows) && InSlice(x, Padding, cols - Padding, cols)
  }

  /** On an axis of any length the slice `3:n-3` is exactly the indices at least 3
      away from both ends, even where `n-3` is negative and counts from the end. */
  lemma InteriorExact(rows: nat, cols: nat, y: int, x: int)
    requires 0 <= y < rows && 0 <= x < cols
    ensures Interior(rows, cols, y, x) <==> 3 <= y < rows - 3 && 3 <= x < cols - 3
  {
  }

  /** `np.ones((rows, cols))`, then `False` assigned to the slice `3:rows-3, 3:cols-3`. */
  method BorderMask(rows: nat, cols: nat) returns (bm: array2<bool>)
    ensures fresh(bm) && bm.Length0 == rows && bm.Length1 == cols
    ensures forall y, x :: 0 <= y < rows && 0 <= x < cols ==> bm[y, x] == !Interior(rows, cols, y, x)
  {
    bm := new bool[rows, cols]((_, _) => true);
    var y0, y1 := SliceBound(Padding, rows), SliceBound(rows - Padding, rows);
    var x0, x1 := SliceBound(Padding, cols), SliceBound(cols - Padding, cols);
    forall y, x | y0 <= y < y1 && x0 <= x < x1 {
      bm[y, x] := false;
    }
  }

  /** The final selection: the cleaned-up mask, kept inside the raw selection and out
      of the frame. */
  function ObjectMaskSpec(raw: Mask, cleaned: Mask, rows: nat, cols: nat): Mask
  {
    seq(rows, y => seq(cols, x => MaskAt(cleaned, y, x) && MaskAt(raw, y, x) && Interior(rows, cols, y, x)))
  }

  /** The selection step of object-only mode. `cleaned` is what the morphology chain
      (erosion, closing, hole filling, largest component, dilation) makes of the raw
      selection; the library computes it. */
  method ObjectMask(px: Pixels, w: nat, invert: bool, threshold: Option<int>, cleaned: Mask) returns (mask: Mask)
    ensures mask == ObjectMaskSpec(RawMask(px, w, invert, EffectiveThreshold(threshold, invert)), cleaned, |px|, w)
  {
    var rows, cols := |px|, w;
    var t := EffectiveThreshold(threshold, invert);
    var raw := RawMask(px, w, invert, t);
    var bm := BorderMask(rows, cols);
    mask := seq(rows, y requires 0 <= y < rows reads bm =>
      seq(cols, x requires 0 <= x < cols reads bm => MaskAt(cleaned, y, x) && MaskAt(raw, y, x) && !bm[y, x]));
    ghost var spec := ObjectMaskSpec(raw, cleaned, rows, cols);
    forall y | 0 <= y < rows
      ensures mask[y] == spec[y]
    {
    }
  }

  /** A selected pixel is past the threshold, selected by the clean-up, and at least
      three pixels from every edge; inside that frame the selection is exactly where
      the clean-up and the threshold agree. */
  lemma ObjectMaskChosen(px: Pixels, w: nat, invert: bool, threshold: Option<int>, cleaned: Mask, y: int, x: int)
    requires 0 <= y < |px| && 0 <= x < w
    ensures var m := ObjectMaskSpec(RawMask(px, w, invert, EffectiveThreshold(threshold, invert)), cleaned, |px|, w);
      IsGrid(m, |px|, w) &&
      (m[y][x] <==>
        (MaskAt(cleaned, y, x) && Foreground(PixelAt(px, y, x), invert, EffectiveThreshold(threshold, invert)) &&
         3 <= y < |px| - 3 && 3 <= x < w - 3))
  {
    InteriorExact(|px|, w, y, x);
  }

  /** An image six pixels or fewer across in either direction has nothing left once
      the frame is removed. */
  lemma SmallImageEmpty(raw: Mask, cleaned: Mask, rows: nat, cols: nat)
    requires rows <= 6 || cols <= 6
    ensures forall y, x :: 0 <= y < rows && 0 <= x < cols ==> !ObjectMaskSpec(raw, cleaned, rows, cols)[y][x]
  {
    forall y, x | 0 <= y < rows && 0 <= x < cols
      ensures !ObjectMaskSpec(raw, cleaned, rows, cols)[y][x]
    {
      InteriorExact(rows, cols, y, x);
    }
  }

  // ----- the voxel volume -----

  /** `int(max_height * 2)` layers. */
  function ZSize(maxHeight: real): (n: int)
    ensures n >= 2 ==> maxHeight >= 1.0
  {
    Trunc(maxHeight * 2.0)
  }

  /** `(h - base) / max_height * (z_size - 1)`: the height as a fractional layer. */
  function Layer(h: real, base: real, maxHeight: real, zSize: int): real
    requires maxHeight != 0.0
  {
    (h - base) / maxHeight * (zSize - 1) as real
  }

  /** `int((h - base) / max_height * (z_size - 1))`. */
  function ColumnHeight(h: real, base: real, maxHeight: real, zSize: int): int
    requires maxHeight != 0.0
  {
    Trunc(Layer(h, base, maxHeight, zSize))
  }

  /** How many layers `volume[i, j, 0:max(1, z)] = True` fills: the slice clips at the
      volume's depth. */
  function Filled(h: real, base: real, maxHeight: real, zSize: nat): (n: nat)
    requires maxHeight != 0.0
    ensures n <= zSize
  {
    var z := ColumnHeight(h, base, maxHeight, zSize);
    SliceBound(if z < 1 then 1 else z, zSize)
  }

  /** The volume over the `rows x cols` map `g`: a selected column is filled from the
      floor to its height, every other column is empty. */
  function VolumeSpec(g: Grid, mask: Mask, rows: nat, cols: nat, zSize: nat, base: real, maxHeight: real): Volume
    requires maxHeight != 0.0
  {
    seq(rows, i => seq(cols, j => seq(zSize, k => MaskAt(mask, i, j) && k < Filled(Sample(g, i, j), base, maxHeight, zSize))))
  }

  /** The voxels of a 3-D array, as a value. */
  function Voxels(a: array3<bool>): (v: Volume)
    reads a
  {
    seq(a.Length0, i reads a => seq(a.Length1, j reads a => seq(a.Length2, k reads a =>
      if 0 <= i < a.Length0 && 0 <= j < a.Length1 && 0 <= k < a.Length2 then a[i, j, k] else false)))
  }

  /** Row-major order of columns: `(i', j')` comes before `(i, j)`. */
  predicate Before(i': int, j': int, i: int, j: int)
  {
    i' < i || (i' == i && j' < j)
  }

  /** The filling loop: a zeroed volume, then every selected column filled from layer
      0 up to its height. */
  method FillVolume(hm: array2<real>, mask: Mask, zSize: nat, base: real, maxHeight: real) returns (vol: array3<bool>)
    requires maxHeight != 0.0
    ensures fresh(vol)
    ensures Voxels(vol) == VolumeSpec(Snapshot(hm), mask, hm.Length0, hm.Length1, zSize, base, maxHeight)
  {
    var rows, cols := hm.Length0, hm.Length1;
    ghost var g := Snapshot(hm);
    vol := new bool[rows, cols, zSize]((_, _, _) => false);
    var i := 0;
    while i < rows
      invariant 0 <= i <= rows
      invariant forall a, b, k :: 0 <= a < rows && 0 <= b < cols && 0 <= k < zSize ==>
        vol[a, b, k] == (a < i && MaskAt(mask, a, b) && k < Filled(g[a][b], base, maxHeight, zSize))
    {
      var j := 0;
      while j < cols
        invariant 0 <= j <= cols
        invariant forall a, b, k :: 0 <= a < rows && 0 <= b < cols && 0 <= k < zSize ==>
          vol[a, b, k] == (Before(a, b, i, j) && MaskAt(mask, a, b) && k < Filled(g[a][b], base, maxHeight, zSize))
      {
        if MaskAt(mask, i, j) {
          var z := ColumnHeight(hm[i, j], base, maxHeight, zSize);
          var top := SliceBound(if z < 1 then 1 else z, zSize);
          forall k | 0 <= k < top {
            vol[i, j, k] := true;
          }
        }
        j := j + 1;
      }
      i := i + 1;
    }
    VoxelsEqual(vol, VolumeSpec(g, mask, rows, cols, zSize, base, maxHeight));
  }

  lemma VoxelsEqual(a: array3<bool>, v: Volume)
    requires |v| == a.Length0
    requires forall i :: 0 <= i < a.Length0 ==> |v[i]| == a.Length1
    requires forall i, j :: 0 <= i < a.Length0 && 0 <= j < a.Length1 ==> |v[i][j]| == a.Length2
    requires forall i, j, k :: 0 <= i < a.Length0 && 0 <= j < a.Length1 && 0 <= k < a.Length2 ==> a[i, j, k] == v[i][j][k]
    ensures Voxels(a) == v
  {
    var s := Voxels(a);
    forall i | 0 <= i < a.Length0
      ensures s[i] == v[i]
    {
      forall j | 0 <= j < a.Length1
        ensures s[i][j] == v[i][j]
      {
      }
    }
  }

  /** For heights between the base and `base + maxHeight` and a volume at least two
      layers deep, a selected column is filled at its floor and empty at the top
      layer, so the extracted surface closes over every selected pixel; a higher
      pixel fills at least as many layers as a lower one. */
  lemma ColumnBounds(h: real, h': real, base: real, maxHeight: real, zSize: nat)
    requires maxHeight > 0.0 && zSize >= 2
    requires base <= h <= base + maxHeight && h <= h' <= base + maxHeight
    ensures 1 <= Filled(h, base, maxHeight, zSize) <= zSize - 1
    ensures Filled(h, base, maxHeight, zSize) <= Filled(h', base, maxHeight, zSize)
  {
    ColumnHeightBounds(h, h', base, maxHeight, zSize);
    FilledIs(h, base, maxHeight, zSize);
    FilledIs(h', base, maxHeight, zSize);
  }

  lemma ColumnHeightBounds(h: real, h': real, base: real, maxHeight: real, zSize: nat)
    requires maxHeight > 0.0 && zSize >= 2
    requires base <= h <= h' <= base + maxHeight
    ensures 0 <= ColumnHeight(h, base, maxHeight, zSize) <= ColumnHeight(h', base, maxHeight, zSize) <= zSize - 1
  {
    LayerRange(h, h', base, maxHeight, zSize);
    LayerBounds(Layer(h, base, maxHeight, zSize), Layer(h', base, maxHeight, zSize), zSize - 1);
  }

  /** Heights from the base to `base + maxHeight` fall on layers `0 .. zSize-1`, in
      order. */
  lemma LayerRange(h: real, h': real, base: real, m: real, zSize: nat)
    requires m > 0.0 && zSize >= 2
    requires base <= h <= h' <= base + m
    ensures 0.0 <= Layer(h, base, m, zSize) <= Layer(h', base, m, zSize) <= (zSize - 1) as real
  {
    UnitFraction(h - base, h' - base, m);
    ScaleUnit((h - base) / m, (h' - base) / m, (zSize - 1) as real);
  }

  /** A column height within the volume fills `max(1, z)` layers. */
  lemma FilledIs(h: real, base: real, maxHeight: real, zSize: nat)
    requires maxHeight != 0.0
    requires 0 <= ColumnHeight(h, base, maxHeight, zSize) <= zSize - 1
    ensures var z := ColumnHeight(h, base, maxHeight, zSize);
      Filled(h, base, maxHeight, zSize) == if z < 1 then 1 else z
  {
  }

  lemma LayerBounds(r: real, r': real, d: int)
    requires 0.0 <= r <= r' <= d as real && d >= 0
    ensures 0 <= Trunc(r) <= Trunc(r') <= d
  {
    TruncBelow(r', d);
    TruncMonotone(r, r');
  }

  lemma UnitFraction(a: real, b: real, m: real)
    requires m > 0.0 && 0.0 <= a <= b <= m
    ensures 0.0 <= a / m <= b / m <= 1.0
  {
    DivMonotone(a, b, m);
    DivMonotone(b, m, m);
    DivMonotone(0.0, a, m);
  }

  lemma ScaleUnit(f: real, f': real, d: real)
    requires 0.0 <= f <= f' <= 1.0 && d >= 0.0
    ensures 0.0 <= f * d <= f' * d <= d
  {
    assert f' * d <= 1.0 * d;
  }

  lemma TruncMonotone(r: real, r': real)
    requires 0.0 <= r <= r'
    ensures Trunc(r) <= Trunc(r')
  {
  }

  /** Every layer of the volume: the floor and the top layer of a selected pixel, and
      nothing in a pixel outside the selection. */
  lemma VolumeShape(g: Grid, mask: Mask, rows: nat, cols: nat, zSize: nat, base: real, maxHeight: real, i: int, j: int)
    requires maxHeight > 0.0 && zSize >= 2
    requires 0 <= i < rows && 0 <= j < cols && IsGrid(g, rows, cols)
    requires base <= g[i][j] <= base + maxHeight
    ensures var v := VolumeSpec(g, mask, rows, cols, zSize, base, maxHeight);
      v[i][j][0] == MaskAt(mask, i, j) && !v[i][j][zSize - 1] &&
      (!MaskAt(mask, i, j) ==> forall k :: 0 <= k < zSize ==> !v[i][j][k])
  {
    ColumnBounds(g[i][j], g[i][j], base, maxHeight, zSize);
  }

  // ----- the extracted surface -----

  /** One marching-cubes vertex `(a, b, c)`, in the volume's axes, brought back to the
      model: the first coordinate kept, the second flipped by `rows - 1`, the layer
      scaled to millimetres. */
  function Rescaled(v: Vertex, rows: int, zSize: int, maxHeight: real): Vertex
    requires zSize != 1
  {
    Vertex(v.x, (rows - 1) as real - v.y, v.z / (zSize - 1) as real * maxHeight)
  }

  /** The three column assignments on the vertex array, in place. */
  method RescaleVertices(verts: array<Vertex>, rows: int, zSize: int, maxHeight: real)
    requires zSize != 1
    modifies verts
    ensures forall k :: 0 <= k < verts.Length ==> verts[k] == Rescaled(old(verts[k]), rows, zSize, maxHeight)
  {
    forall k | 0 <= k < verts.Length {
      verts[k] := verts[k].(y := (rows - 1) as real - verts[k].y);
    }
    forall k | 0 <= k < verts.Length {
      verts[k] := verts[k].(z := verts[k].z / (zSize - 1) as real * maxHeight);
    }
  }

  /** The flip is its own inverse, and the layers `0 .. zSize-1` of the volume map onto
      the heights `0 .. maxHeight`, floor to floor and top to top. */
  lemma RescaledRange(v: Vertex, rows: int, zSize: int, maxHeight: real)
    requires zSize >= 2 && maxHeight >= 0.0
    ensures var r := Rescaled(v, rows, zSize, maxHeight);
      (rows - 1) as real - r.y == v.y && r.x == v.x &&
      (0.0 <= v.z <= (zSize - 1) as real ==> 0.0 <= r.z <= maxHeight) &&
      (v.z == 0.0 ==> r.z == 0.0) &&
      (v.z == (zSize - 1) as real ==> r.z == maxHeight)
  {
    var d := (zSize - 1) as real;
    if 0.0 <= v.z <= d {
      FractionScaled(v.z / d, maxHeight);
    }
    if v.z == d {
      assert v.z / d == 1.0;
    }
  }

  /** A fraction of the unit interval scales `m` to somewhere in `0 .. m`. */
  lemma FractionScaled(f: real, m: real)
    requires 0.0 <= f <= 1.0 && m >= 0.0
    ensures 0.0 <= f * m <= m
  {
    assert f * m <= 1.0 * m;
  }

  /** `faces[:, ::-1]`: every triangle with its corners in reverse order. */
  function Flipped(faces: seq<Face>): (r: seq<Face>)
    ensures |r| == |faces|
    ensures forall k :: 0 <= k < |faces| ==>
      Edges(r[k]) == set e | e in Edges(faces[k]) :: Edge(e.to, e.from)
  {
    seq(|faces|, k requires 0 <= k < |faces| => Face(faces[k].c, faces[k].b, faces[k].a))
  }

  /** Reversing the corner order twice restores the faces, keeps every index in range,
      and keeps a consistently wound surface consistent (turning every normal). */
  lemma FlippedInvolution(faces: seq<Face>, n: int)
    ensures Flipped(Flipped(faces)) == faces
    ensures AllInRange(Flipped(faces), n) <==> AllInRange(faces, n)
    ensures WindingConsistent(Flipped(faces)) <==> WindingConsistent(faces)
  {
    var r := Flipped(faces);
    forall i, j | 0 <= i < j < |faces| && !(Edges(faces[i]) !! Edges(faces[j]))
      ensures !(Edges(r[i]) !! Edges(r[j]))
    {
      var e :| e in Edges(faces[i]) && e in Edges(faces[j]);
      assert Edge(e.to, e.from) in Edges(r[i]);
    }
    forall i, j | 0 <= i < j < |faces| && !(Edges(r[i]) !! Edges(r[j]))
      ensures !(Edges(faces[i]) !! Edges(faces[j]))
    {
      var e :| e in Edges(r[i]) && e in Edges(r[j]);
      var e' :| e' in Edges(faces[i]) && e == Edge(e'.to, e'.from);
      var e'' :| e'' in Edges(faces[j]) && e == Edge(e''.to, e''.from);
      assert e' == e'';
    }
  }
}
