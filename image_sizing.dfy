/** The size an input image is resampled to before it becomes a height map, in pixels
    (one pixel is one millimetre of the model). Both image converters share this code:
    with no requested dimension the original size is kept, clamped to `maxSize` along
    the longer side; a requested dimension fixes the other by the aspect ratio, and the
    result is scaled down to `maxSize` when either side exceeds it. */
module ImageSizing {
  import opened Mesh

  datatype Size = Size(width: int, height: int)

  /** Python's `int()` on a float: truncation toward zero. */
  function Trunc(r: real): (n: int)
    ensures r >= 0.0 ==> n as real <= r < n as real + 1.0
    ensures r < 0.0 ==> n as real - 1.0 < r <= n as real
  {
    if r >= 0.0 then r.Floor else -((-r).Floor)
  }

  function Min(a: int, b: int): int { if a <= b then a else b }

  /** `int(n / (num / den))`: a side from the other one and the aspect ratio. */
  function ByRatioDiv(n: int, num: int, den: int): int
    requires num >= 1 && den >= 1
  {
    Trunc(n as real / (num as real / den as real))
  }

  /** `int(n * (num / den))`. */
  function ByRatioMul(n: int, num: int, den: int): int
    requires den != 0
  {
    Trunc(n as real * (num as real / den as real))
  }

  /** `int(n * num / den)`, evaluated left to right. */
  function Proportional(n: int, num: int, den: int): int
    requires den >= 1
  {
    Trunc(n as real * num as real / den as real)
  }

  /** The clamp applied after one or both dimensions were requested: the larger side
      becomes `maxSize` and the other is scaled by the same factor. The division
      `maxSize / side` fails when that side is 0, which only a negative `maxSize` can
      let through. */
  function ClampSize(width: int, height: int, maxSize: int): Option<Size>
  {
    if width > maxSize || height > maxSize then
      if width >= height then
        if width == 0 then None
        else Some(Size(maxSize, ByRatioMul(height, maxSize, width)))
      else
        if height == 0 then None
        else Some(Size(ByRatioMul(width, maxSize, height), maxSize))
    else Some(Size(width, height))
  }

  /** The sizing step for an image of `origWidth x origHeight` pixels (a decoded image
      has at least one pixel each way) and optional requested width and height. */
  function FitSize(origWidth: int, origHeight: int, width: Option<int>, height: Option<int>, maxSize: int): Option<Size>
    requires origWidth >= 1 && origHeight >= 1
  {
    if width.None? && height.None? then
      if origWidth >= origHeight then
        var w := Min(origWidth, maxSize);
        Some(Size(w, ByRatioDiv(w, origWidth, origHeight)))
      else
        var h := Min(origHeight, maxSize);
        Some(Size(ByRatioMul(h, origWidth, origHeight), h))
    else
      var w := if width.None? then Proportional(height.value, origWidth, origHeight) else width.value;
      var h := if height.None? then Proportional(w, origHeight, origWidth) else height.value;
      ClampSize(w, h, maxSize)
  }

  lemma TruncBelow(r: real, m: int)
    requires r <= m as real && m >= 0
    ensures Trunc(r) <= m
  {
  }

  lemma TruncExact(n: int)
    ensures Trunc(n as real) == n
  {
  }

  /** Scaling a non-negative length by `small / big <= 1` does not lengthen it. */
  lemma RatioBelow(w: real, small: real, big: real)
    requires w >= 0.0 && 0.0 <= small <= big && big > 0.0
    ensures 0.0 <= w * (small / big) <= w
  {
    var f := small / big;
    assert 0.0 <= f <= 1.0;
    assert w * f <= w * 1.0;
  }

  lemma ByRatioDivBelow(n: int, num: int, den: int)
    requires n >= 0 && num >= den >= 1
    ensures 0 <= ByRatioDiv(n, num, den) <= n
  {
    var a := num as real / den as real;
    assert a >= 1.0;
    assert n as real / a == n as real * (den as real / num as real);
    RatioBelow(n as real, den as real, num as real);
    TruncBelow(n as real / a, n);
  }

  lemma ByRatioMulBelow(n: int, num: int, den: int)
    requires n >= 0 && 0 <= num <= den && den != 0
    ensures 0 <= ByRatioMul(n, num, den) <= n
  {
    RatioBelow(n as real, num as real, den as real);
    TruncBelow(n as real * (num as real / den as real), n);
  }

  lemma ByRatioDivExact(num: int, den: int)
    requires num >= 1 && den >= 1
    ensures ByRatioDiv(num, num, den) == den
  {
    var a := num as real / den as real;
    assert a * den as real == num as real;
    assert num as real / a == den as real;
    TruncExact(den);
  }

  lemma ByRatioMulExact(num: int, den: int)
    requires den >= 1
    ensures ByRatioMul(den, num, den) == num
  {
    assert den as real * (num as real / den as real) == num as real;
    TruncExact(num);
  }

  /** The side scaled by `maxSize / side` does not exceed `maxSize`. */
  lemma ScaledBelow(side: int, other: int, maxSize: int)
    requires side > maxSize >= 0 && other <= side
    ensures ByRatioMul(other, maxSize, side) <= maxSize
  {
    var f := maxSize as real / side as real;
    assert 0.0 <= f;
    if other >= 0 {
      assert other as real * f <= side as real * f;
      assert side as real * f == maxSize as real;
      TruncBelow(other as real * f, maxSize);
    } else {
      assert other as real * f <= 0.0;
      TruncBelow(other as real * f, 0);
    }
  }

  /** The no-request branch: the longer side is the original one clamped to the limit,
      and the shorter side follows from the aspect ratio, so it is no longer. */
  lemma FitLongerSide(origWidth: int, origHeight: int, maxSize: int)
    requires origWidth >= 1 && origHeight >= 1 && maxSize >= 0
    ensures var s := FitSize(origWidth, origHeight, None, None, maxSize).value;
      if origWidth >= origHeight then s.width == Min(origWidth, maxSize) && 0 <= s.height <= s.width
      else s.height == Min(origHeight, maxSize) && 0 <= s.width <= s.height
  {
    if origWidth >= origHeight {
      ByRatioDivBelow(Min(origWidth, maxSize), origWidth, origHeight);
    } else {
      ByRatioMulBelow(Min(origHeight, maxSize), origWidth, origHeight);
    }
  }

  /** With a non-negative limit the sizing always succeeds, and neither side of the
      result exceeds the limit, whichever branch is taken. */
  lemma FitWithinLimit(origWidth: int, origHeight: int, width: Option<int>, height: Option<int>, maxSize: int)
    requires origWidth >= 1 && origHeight >= 1 && maxSize >= 0
    ensures var s := FitSize(origWidth, origHeight, width, height, maxSize);
      s.Some? && s.value.width <= maxSize && s.value.height <= maxSize
  {
    if width.None? && height.None? {
      FitLongerSide(origWidth, origHeight, maxSize);
    } else {
      var w := if width.None? then Proportional(height.value, origWidth, origHeight) else width.value;
      var h := if height.None? then Proportional(w, origHeight, origWidth) else height.value;
      if w > maxSize || h > maxSize {
        if w >= h {
          ScaledBelow(w, h, maxSize);
        } else {
          ScaledBelow(h, w, maxSize);
        }
      }
    }
  }

  /** An image that already fits, with no requested dimension, keeps its size. */
  lemma FitKeepsSmallImage(origWidth: int, origHeight: int, maxSize: int)
    requires 1 <= origWidth <= maxSize && 1 <= origHeight <= maxSize
    ensures FitSize(origWidth, origHeight, None, None, maxSize) == Some(Size(origWidth, origHeight))
  {
    if origWidth >= origHeight {
      ByRatioDivExact(origWidth, origHeight);
    } else {
      ByRatioMulExact(origWidth, origHeight);
    }
  }

  /** A requested size over the limit is scaled down: its larger side becomes exactly
      the limit and the other side shrinks by the same factor, never growing. */
  lemma FitOversizedRequest(origWidth: int, origHeight: int, width: int, height: int, maxSize: int)
    requires origWidth >= 1 && origHeight >= 1 && maxSize >= 0
    requires width > maxSize || height > maxSize
    requires width >= 0 && height >= 0
    ensures var s := FitSize(origWidth, origHeight, Some(width), Some(height), maxSize).value;
      if width >= height then s.width == maxSize && 0 <= s.height <= height
      else s.height == maxSize && 0 <= s.width <= width
  {
    if width >= height {
      ByRatioMulBelow(height, maxSize, width);
    } else {
      ByRatioMulBelow(width, maxSize, height);
    }
  }

  /** The only failure: a negative limit with an empty larger side. */
  lemma FitFailsOnZeroSide()
    ensures FitSize(1, 1, Some(0), Some(0), -1).None?
    ensures FitSize(1, 1, Some(0), Some(0), 0) == Some(Size(0, 0))
  {
  }
}
