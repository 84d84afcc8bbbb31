/*
 * The Sobel edge-detect plugin: one call of `spatial` with a fixed 3 x 3
 * kernel and no explicit total.
 */
module EdgeDetect {
  import opened Core
  import opened Errors
  import opened Raster
  import opened Spatial

  /** The 3 x 3 kernel, row by row. */
  const FILTER: seq<int> := [
    -1,  0,  1,
    -2,  0,  2,
    -1,  0,  1]

  /** `execute`: the convolution's result, passed through. */
  function Execute(width: int, height: int, data: seq<Byte>): (r: Result<ImageData>)
    requires width > 0 && height > 0
    ensures r == SpatialSpec(width, height, data, FILTER, 0)
    ensures r.Ok? ==> r.value.width == width && r.value.height == height && |r.value.data| == |data|
  {
    SpatialSpec(width, height, data, FILTER, 0)
  }

  /** Nine entries make a 3 x 3 kernel; they sum to 0, so the divisor is 1. */
  lemma KernelShape()
    ensures |FILTER| == 9 && FilterSize(|FILTER|) == 3
    ensures FILTER[..9] == FILTER
    ensures Sum(FILTER) == 0 && Divisor(FILTER, 0) == 1
  {
    ISqrtExact(9, 3);
    assert FILTER[..9] == FILTER;
    assert FILTER == [-1, 0, 1] + [-2, 0, 2] + [-1, 0, 1];
    SumThree(-1, 0, 1);
    SumThree(-2, 0, 2);
    SumThree(-1, 0, 1);
    SumConcat([-1, 0, 1], [-2, 0, 2]);
    SumConcat([-1, 0, 1] + [-2, 0, 2], [-1, 0, 1]);
  }

  /** An image whose bytes are all equal has no edges: every colour byte of the result is 0. */
  lemma UniformImage(width: int, height: int, s: seq<Byte>, v: Byte, x: int, y: int, k: int)
    requires width > 0 && height > 0
    requires Execute(width, height, s).Ok?
    requires forall q :: 0 <= q < |s| ==> s[q] == v
    requires 0 <= x < width && 0 <= y < height && 0 <= k < 3
    ensures 0 <= Idx(x, y, k, width, ChannelCount(|s|, width, height)) < |s|
    ensures Execute(width, height, s).value.data[Idx(x, y, k, width, ChannelCount(|s|, width, height))] == 0
  {
    KernelShape();
    SpatialUniform(width, height, s, FILTER, 0, v, x, y, k);
    assert v as int * Sum(FILTER) == 0;
    assert Clip(Abs(v as int * Sum(FILTER)) / Abs(Divisor(FILTER, 0))) == 0;
  }

  /** The weighted sum around (x, y): the right column less the left, the middle row counted twice. */
  lemma SobelSum(s: seq<Byte>, w: int, h: int, c: int, x: int, y: int, k: int)
    requires w > 0 && h > 0 && c > 0 && w * h * c <= |s|
    requires Inside(w, h, 3, x, y) && 0 <= k < c
    ensures ConvSum(s, w, h, c, FILTER, 3, x, y, k, 9)
         == Pixel(s, w, h, c, x + 1, y - 1, k) - Pixel(s, w, h, c, x - 1, y - 1, k) as int
          + 2 * (Pixel(s, w, h, c, x + 1, y, k) - Pixel(s, w, h, c, x - 1, y, k) as int)
          + Pixel(s, w, h, c, x + 1, y + 1, k) - Pixel(s, w, h, c, x - 1, y + 1, k) as int
  {
    ConvSumNine(s, w, h, c, FILTER, x, y, k);
    Weights(Pixel(s, w, h, c, x - 1, y - 1, k), Pixel(s, w, h, c, x, y - 1, k), Pixel(s, w, h, c, x + 1, y - 1, k),
            Pixel(s, w, h, c, x - 1, y, k), Pixel(s, w, h, c, x, y, k), Pixel(s, w, h, c, x + 1, y, k),
            Pixel(s, w, h, c, x - 1, y + 1, k), Pixel(s, w, h, c, x, y + 1, k), Pixel(s, w, h, c, x + 1, y + 1, k));
  }

  /** Weighting nine values by the kernel, row by row: the right column less the left, the middle row twice. */
  lemma Weights(a: int, b: int, c: int, d: int, e: int, f: int, g: int, h: int, i: int)
    ensures |FILTER| == 9
    ensures a * FILTER[0] + b * FILTER[1] + c * FILTER[2] + d * FILTER[3] + e * FILTER[4]
          + f * FILTER[5] + g * FILTER[6] + h * FILTER[7] + i * FILTER[8]
         == c - a + 2 * (f - d) + i - g
  {
    assert FILTER[0] == -1 && FILTER[1] == 0 && FILTER[2] == 1 && FILTER[3] == -2 && FILTER[4] == 0;
    assert FILTER[5] == 2 && FILTER[6] == -1 && FILTER[7] == 0 && FILTER[8] == 1;
  }

  /** Buffer t holds the image of buffer s mirrored left to right, every byte of every pixel. */
  predicate Mirrored(t: seq<Byte>, s: seq<Byte>, w: int, h: int, c: int)
  {
    w > 0 && h > 0 && c > 0 && |t| == |s| && w * h * c <= |s| &&
    forall a, b, j :: 0 <= a < w && 0 <= b < h && 0 <= j < c ==> Pixel(t, w, h, c, a, b, j) == Pixel(s, w, h, c, w - 1 - a, b, j)
  }

  /** On a mirrored image the weighted sum changes sign: the kernel is antisymmetric left to right. */
  lemma MirrorSum(t: seq<Byte>, s: seq<Byte>, w: int, h: int, c: int, x: int, y: int, k: int)
    requires Mirrored(t, s, w, h, c)
    requires Inside(w, h, 3, x, y) && 0 <= k < c
    ensures Inside(w, h, 3, w - 1 - x, y)
    ensures ConvSum(t, w, h, c, FILTER, 3, x, y, k, 9) == -ConvSum(s, w, h, c, FILTER, 3, w - 1 - x, y, k, 9)
  {
    var m := w - 1 - x;
    SobelSum(t, w, h, c, x, y, k);
    SobelSum(s, w, h, c, m, y, k);
    assert Pixel(t, w, h, c, x - 1, y - 1, k) == Pixel(s, w, h, c, m + 1, y - 1, k);
    assert Pixel(t, w, h, c, x + 1, y - 1, k) == Pixel(s, w, h, c, m - 1, y - 1, k);
    assert Pixel(t, w, h, c, x - 1, y, k) == Pixel(s, w, h, c, m + 1, y, k);
    assert Pixel(t, w, h, c, x + 1, y, k) == Pixel(s, w, h, c, m - 1, y, k);
    assert Pixel(t, w, h, c, x - 1, y + 1, k) == Pixel(s, w, h, c, m + 1, y + 1, k);
    assert Pixel(t, w, h, c, x + 1, y + 1, k) == Pixel(s, w, h, c, m - 1, y + 1, k);
  }

  /**
   * Mirroring the input left to right mirrors the result: the kernel only
   * changes sign under the flip, and the absolute value removes the sign.
   * Alpha, copied through, is mirrored with the rest.
   */
  lemma Mirror(width: int, height: int, s: seq<Byte>, t: seq<Byte>, x: int, y: int, k: int)
    requires width > 0 && height > 0
    requires Execute(width, height, s).Ok?
    requires Mirrored(t, s, width, height, ChannelCount(|s|, width, height))
    requires 0 <= x < width && 0 <= y < height && 0 <= k < ChannelCount(|s|, width, height)
    ensures Execute(width, height, t).Ok?
    ensures 0 <= Idx(x, y, k, width, ChannelCount(|s|, width, height)) < |t|
    ensures 0 <= Idx(width - 1 - x, y, k, width, ChannelCount(|s|, width, height)) < |s|
    ensures var c := ChannelCount(|s|, width, height);
      Execute(width, height, t).value.data[Idx(x, y, k, width, c)]
        == Execute(width, height, s).value.data[Idx(width - 1 - x, y, k, width, c)]
  {
    var c := ChannelCount(|s|, width, height);
    var m := width - 1 - x;
    KernelShape();
    assert Execute(width, height, t).Ok?;
    SpatialAt(width, height, t, FILTER, 0, x, y, k);
    SpatialAt(width, height, s, FILTER, 0, m, y, k);
    var outT := Execute(width, height, t).value.data;
    var outS := Execute(width, height, s).value.data;
    var qt, qs := Idx(x, y, k, width, c), Idx(m, y, k, width, c);
    if k == 3 {
      assert Pixel(t, width, height, c, x, y, k) == Pixel(s, width, height, c, m, y, k);
      assert outT[qt] == t[qt] && outS[qs] == s[qs];
    } else if Inside(width, height, 3, x, y) {
      MirrorSum(t, s, width, height, c, x, y, k);
      assert outT[qt] == Clip(Abs(ConvSum(t, width, height, c, FILTER, 3, x, y, k, 9)) / 1);
      assert outS[qs] == Clip(Abs(ConvSum(s, width, height, c, FILTER, 3, m, y, k, 9)) / 1);
    } else {
      assert !Inside(width, height, 3, m, y);
      assert outT[qt] == 0 && outS[qs] == 0;
    }
  }
}
