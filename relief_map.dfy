/** From a grey-scale image to the height map of a relief: each pixel value `v` in
    0..255 becomes `v/255 * maxHeight + baseHeight` (or `(255-v)/255 * ...` when the
    image is inverted), pixels selected by the optional background threshold drop to
    the base, and an optional frame of base-height cells is put around the map. Both
    image converters share this code. */
module ReliefMap {
  import opened Mesh
  import opened Heightmaps

  /** A grey-scale image: rows of pixel values. */
  type Pixels = seq<seq<int>>

  /** Every pixel of the `|px| x w` image is an 8-bit value. */
  predicate IsGreyscale(px: Pixels, w: int)
  {
    IsGrid(px, |px|, w) && forall y, x :: 0 <= y < |px| && 0 <= x < w ==> 0 <= px[y][x] <= 255
  }

  function PixelAt(px: Pixels, y: int, x: int): int
  {
    if 0 <= y < |px| && 0 <= x < |px[y]| then px[y][x] else 0
  }

  /** The height of one pixel: inverted if asked, scaled from 0..255 to
      `0..maxHeight`, raised by the base. */
  function Relief(v: int, invert: bool, maxHeight: real, base: real): (r: real)
    ensures 0 <= v <= 255 && maxHeight >= 0.0 ==> base <= r <= base + maxHeight
  {
    var level := if invert then 255.0 - v as real else v as real;
    UnitScale(level, maxHeight);
    (level / 255.0) * maxHeight + base
  }

  lemma UnitScale(level: real, m: real)
    ensures 0.0 <= level <= 255.0 && m >= 0.0 ==> 0.0 <= (level / 255.0) * m <= m
  {
    if 0.0 <= level <= 255.0 && m >= 0.0 {
      var f := level / 255.0;
      assert 0.0 <= f <= 1.0;
      assert f * m <= 1.0 * m;
    }
  }

  /** The background mask, taken on the pixel values before any inversion: dark
      pixels (`<= threshold`) normally, bright ones (`>= threshold`) when inverted. */
  predicate Masked(v: int, invert: bool, threshold: int)
  {
    if invert then v >= threshold else v <= threshold
  }

  function ReliefCell(px: Pixels, invert: bool, maxHeight: real, base: real, threshold: Option<int>, y: int, x: int): real
  {
    var v := PixelAt(px, y, x);
    if threshold.Some? && Masked(v, invert, threshold.value) then base else Relief(v, invert, maxHeight, base)
  }

  /** The height map of an image `w` pixels wide. */
  function ReliefGrid(px: Pixels, w: nat, invert: bool, maxHeight: real, base: real, threshold: Option<int>): Grid
  {
    seq(|px|, y => seq(w, x => ReliefCell(px, invert, maxHeight, base, threshold, y, x)))
  }

  /** The vectorised height computation, then the masked assignment
      `height_map[mask] = base_height`. */
  method MakeHeightMap(px: Pixels, w: nat, invert: bool, maxHeight: real, base: real, threshold: Option<int>)
    returns (hm: array2<real>)
    requires IsGrid(px, |px|, w)
    ensures fresh(hm) && hm.Length0 == |px| && hm.Length1 == w
    ensures Snapshot(hm) == ReliefGrid(px, w, invert, maxHeight, base, threshold)
  {
    hm := new real[|px|, w]((y, x) => Relief(PixelAt(px, y, x), invert, maxHeight, base));
    if threshold.Some? {
      var t := threshold.value;
      forall y, x | 0 <= y < hm.Length0 && 0 <= x < hm.Length1 && Masked(PixelAt(px, y, x), invert, t) {
        hm[y, x] := base;
      }
    }
    SnapshotEqual(hm, ReliefGrid(px, w, invert, maxHeight, base, threshold));
  }

  /** Every height lies between the base and `base + maxHeight`; a masked pixel sits
      exactly on the base, and any other keeps its relief height. */
  lemma ReliefBounds(px: Pixels, w: nat, invert: bool, maxHeight: real, base: real, threshold: Option<int>, y: int, x: int)
    requires IsGreyscale(px, w) && maxHeight >= 0.0
    requires 0 <= y < |px| && 0 <= x < w
    ensures var h := ReliefGrid(px, w, invert, maxHeight, base, threshold)[y][x];
      base <= h <= base + maxHeight &&
      (threshold.Some? && Masked(px[y][x], invert, threshold.value) ==> h == base) &&
      (threshold.None? || !Masked(px[y][x], invert, threshold.value) ==> h == Relief(px[y][x], invert, maxHeight, base))
  {
  }

  /** A masked pixel is a lowest point of the map. */
  lemma MaskedIsLowest(px: Pixels, w: nat, invert: bool, maxHeight: real, base: real, t: int, y: int, x: int, y': int, x': int)
    requires IsGreyscale(px, w) && maxHeight >= 0.0
    requires 0 <= y < |px| && 0 <= x < w && 0 <= y' < |px| && 0 <= x' < w
    requires Masked(px[y][x], invert, t)
    ensures var g := ReliefGrid(px, w, invert, maxHeight, base, Some(t)); g[y][x] <= g[y'][x']
  {
    ReliefBounds(px, w, invert, maxHeight, base, Some(t), y', x');
  }

  /** Brighter pixels stand higher, or lower when inverted; black and white reach the
      two ends of the range. Inverting a pixel is the same as mirroring its value. */
  lemma ReliefOrder(v: int, v': int, invert: bool, maxHeight: real, base: real)
    requires v <= v' && maxHeight >= 0.0
    ensures !invert ==> Relief(v, invert, maxHeight, base) <= Relief(v', invert, maxHeight, base)
    ensures invert ==> Relief(v', invert, maxHeight, base) <= Relief(v, invert, maxHeight, base)
    ensures Relief(v, true, maxHeight, base) == Relief(255 - v, false, maxHeight, base)
    ensures Relief(0, invert, maxHeight, base) == (if invert then base + maxHeight else base)
    ensures Relief(255, invert, maxHeight, base) == (if invert then base else base + maxHeight)
  {
    ReliefMonotone(v, v', invert, maxHeight, base);
    assert (255 - v) as real == 255.0 - v as real;
    ReliefEnds(invert, maxHeight, base);
  }

  lemma ReliefMonotone(v: int, v': int, invert: bool, m: real, base: real)
    requires v <= v' && m >= 0.0
    ensures !invert ==> Relief(v, invert, m, base) <= Relief(v', invert, m, base)
    ensures invert ==> Relief(v', invert, m, base) <= Relief(v, invert, m, base)
  {
    var lo, hi := if invert then 255.0 - v' as real else v as real, if invert then 255.0 - v as real else v' as real;
    ScaleMonotone(lo, hi, m);
    var x, y := (lo / 255.0) * m, (hi / 255.0) * m;
    assert x <= y;
    assert x + base <= y + base;
  }

  lemma ReliefEnds(invert: bool, m: real, base: real)
    ensures Relief(0, invert, m, base) == (if invert then base + m else base)
    ensures Relief(255, invert, m, base) == (if invert then base else base + m)
  {
    assert 255.0 - 0 as real == 255.0 && 255.0 - 255 as real == 0.0;
    assert 0 as real == 0.0 && 255 as real == 255.0;
    assert (255.0 / 255.0) * m == m && (0.0 / 255.0) * m == 0.0;
  }

  lemma ScaleMonotone(a: real, b: real, m: real)
    requires a <= b && m >= 0.0
    ensures (a / 255.0) * m <= (b / 255.0) * m
  {
    var d := b / 255.0 - a / 255.0;
    assert d >= 0.0;
    assert (b / 255.0) * m - (a / 255.0) * m == d * m;
  }

  // ----- the frame -----

  /** Cell `(y, x)` of the framed map: the map's cell `(y-b, x-b)` inside, the base
      outside. */
  function FrameCell(g: Grid, cols: int, b: int, base: real, y: int, x: int): real
  {
    if b <= y < b + |g| && b <= x < b + cols then Sample(g, y - b, x - b) else base
  }

  /** The map `g` of `cols` columns with a frame `b` cells wide on every side. */
  function Bordered(g: Grid, cols: nat, b: nat, base: real): Grid
  {
    seq(|g| + 2 * b, y => seq(cols + 2 * b, x => FrameCell(g, cols, b, base, y, x)))
  }

  /** The `rows x cols` window of `g` whose corner is `(b, b)`. */
  function Window(g: Grid, b: int, rows: nat, cols: nat): Grid
  {
    seq(rows, y => seq(cols, x => Sample(g, y + b, x + b)))
  }

  /** `np.ones(...) * base_height`, then the slice assignment of the old map into the
      middle. */
  method AddBorder(hm: array2<real>, b: nat, base: real) returns (out: array2<real>)
    ensures fresh(out)
    ensures out.Length0 == hm.Length0 + 2 * b && out.Length1 == hm.Length1 + 2 * b
    ensures Snapshot(out) == Bordered(Snapshot(hm), hm.Length1, b, base)
  {
    out := new real[hm.Length0 + 2 * b, hm.Length1 + 2 * b]((_, _) => base);
    forall y, x | 0 <= y < hm.Length0 && 0 <= x < hm.Length1 {
      out[y + b, x + b] := hm[y, x];
    }
    ghost var g := Snapshot(hm);
    ghost var framed := Bordered(g, hm.Length1, b, base);
    forall y, x | 0 <= y < out.Length0 && 0 <= x < out.Length1
      ensures out[y, x] == framed[y][x]
    {
      if b <= y < b + hm.Length0 && b <= x < b + hm.Length1 {
        assert out[(y - b) + b, (x - b) + b] == hm[y - b, x - b];
      }
    }
    SnapshotEqual(out, framed);
  }

  /** The frame is a pure addition: the window inside it is the old map, and every
      cell outside that window is the base. */
  lemma BorderKeepsMap(g: Grid, cols: nat, b: nat, base: real)
    requires IsGrid(g, |g|, cols)
    ensures Window(Bordered(g, cols, b, base), b, |g|, cols) == g
    ensures forall y, x ::
      (0 <= y < |g| + 2 * b && 0 <= x < cols + 2 * b && !(b <= y < b + |g| && b <= x < b + cols)) ==>
      Bordered(g, cols, b, base)[y][x] == base
  {
    var f, w := Bordered(g, cols, b, base), Window(Bordered(g, cols, b, base), b, |g|, cols);
    forall y | 0 <= y < |g|
      ensures w[y] == g[y]
    {
      forall x | 0 <= x < cols
        ensures w[y][x] == g[y][x]
      {
        assert w[y][x] == f[y + b][x + b];
      }
    }
  }
}
