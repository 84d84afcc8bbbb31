/*
 * The Laplacian edge-detect plugin: one call of `spatial` with a fixed
 * 3 x 3 kernel and no explicit total.
 */
module LaplacianEdge {
  import opened Core
  import opened Errors
  import opened Raster
  import opened Spatial

  /** The 3 x 3 kernel, row by row. */
  const FILTER: seq<int> := [
    1,  1,  1,
    1, -8,  1,
    1,  1,  1]

  /** `execute`: the convolution's result, passed through. */
  function Execute(width: int, height: int, data: seq<Byte>): (r: Result<ImageData>)
    requires width > 0 && height > 0
    ensures r == SpatialSpec(width, height, data, FILTER, 0)
    ensures r.Ok? ==> r.value.width == width && r.value.height == height && |r.value.data| == |data|
  {
    SpatialSpec(width, height, data, FILTER, 0)
  }

  /** A 3 x 3 kernel with -8 at the centre and 1 elsewhere; the sum is 0, so the divisor is 1. */
  lemma KernelShape()
    ensures |FILTER| == 9 && FilterSize(|FILTER|) == 3
    ensures FILTER[..9] == FILTER
    ensures FILTER[4] == -8 && forall m :: 0 <= m < 9 && m != 4 ==> FILTER[m] == 1
    ensures Sum(FILTER) == 0 && Divisor(FILTER, 0) == 1
  {
    ISqrtExact(9, 3);
    assert FILTER[..9] == FILTER;
    assert FILTER == [1, 1, 1] + [1, -8, 1] + [1, 1, 1];
    SumThree(1, 1, 1);
    SumThree(1, -8, 1);
    SumThree(1, 1, 1);
    SumConcat([1, 1, 1], [1, -8, 1]);
    SumConcat([1, 1, 1] + [1, -8, 1], [1, 1, 1]);
  }

  /** An image whose bytes are all equal has no edges: every colour byte of the result is 0. */
  lemma UniformImage(width: int, height: int, s: seq<Byte>, v: Byte, x: int, y: int, k: int)
    requires width > 0 && height > 0
    requires Execute(width, height, s).Ok?
    requires forall q :: 0 <= q < |s| ==> s[q] == v
    requires 0 <= x < width && 0 <= y < height && 0 <= k < 3
    ensures 0 <= Idx(x, y, k, width, ChannelCount(|s|, width, height)) < |s|
    ensures Execute(width, height, s).value.data[Idx(x, y, k, width, ChannelCount(|s|, width, height))] == 0
  {
    KernelShape();
    SpatialUniform(width, height, s, FILTER, 0, v, x, y, k);
    assert v as int * Sum(FILTER) == 0;
    assert Clip(Abs(v as int * Sum(FILTER)) / Abs(Divisor(FILTER, 0))) == 0;
  }

  /** In a buffer whose only nonzero byte is byte k of pixel (px, py), that pixel is v and every other one 0. */
  lemma ImpulsePixel(s: seq<Byte>, w: int, h: int, c: int, px: int, py: int, k: int, a: int, b: int)
    requires w > 0 && h > 0 && c > 0 && w * h * c <= |s|
    requires 0 <= px < w && 0 <= py < h && 0 <= a < w && 0 <= b < h && 0 <= k < c
    requires forall q :: 0 <= q < |s| && q != Idx(px, py, k, w, c) ==> s[q] == 0
    ensures Pixel(s, w, h, c, a, b, k) == if a == px && b == py then Pixel(s, w, h, c, px, py, k) else 0
  {
    if a != px || b != py {
      var q := Idx(a, b, k, w, c);
      IdxBound(a, b, k, w, h, c);
      DecodeIdx(a, b, k, w, c);
      DecodeIdx(px, py, k, w, c);
      assert q != Idx(px, py, k, w, c);
      assert s[q] == 0;
    }
  }

  /** The weighted sum around (x, y): the eight neighbours less eight times the centre. */
  lemma LaplacianSum(s: seq<Byte>, w: int, h: int, c: int, x: int, y: int, k: int)
    requires w > 0 && h > 0 && c > 0 && w * h * c <= |s|
    requires Inside(w, h, 3, x, y) && 0 <= k < c
    ensures ConvSum(s, w, h, c, FILTER, 3, x, y, k, 9)
         == Pixel(s, w, h, c, x - 1, y - 1, k) + Pixel(s, w, h, c, x, y - 1, k) + Pixel(s, w, h, c, x + 1, y - 1, k)
          + Pixel(s, w, h, c, x - 1, y, k) - 8 * Pixel(s, w, h, c, x, y, k) as int + Pixel(s, w, h, c, x + 1, y, k)
          + Pixel(s, w, h, c, x - 1, y + 1, k) + Pixel(s, w, h, c, x, y + 1, k) + Pixel(s, w, h, c, x + 1, y + 1, k)
  {
    ConvSumNine(s, w, h, c, FILTER, x, y, k);
    Weights(Pixel(s, w, h, c, x - 1, y - 1, k), Pixel(s, w, h, c, x, y - 1, k), Pixel(s, w, h, c, x + 1, y - 1, k),
            Pixel(s, w, h, c, x - 1, y, k), Pixel(s, w, h, c, x, y, k), Pixel(s, w, h, c, x + 1, y, k),
            Pixel(s, w, h, c, x - 1, y + 1, k), Pixel(s, w, h, c, x, y + 1, k), Pixel(s, w, h, c, x + 1, y + 1, k));
  }

  /** Weighting nine values by the kernel, row by row: their sum less nine times the centre. */
  lemma Weights(a: int, b: int, c: int, d: int, e: int, f: int, g: int, h: int, i: int)
    ensures |FILTER| == 9
    ensures a * FILTER[0] + b * FILTER[1] + c * FILTER[2] + d * FILTER[3] + e * FILTER[4]
          + f * FILTER[5] + g * FILTER[6] + h * FILTER[7] + i * FILTER[8]
         == a + b + c + d - 8 * e + f + g + h + i
  {
    assert FILTER[0] == 1 && FILTER[1] == 1 && FILTER[2] == 1 && FILTER[3] == 1 && FILTER[4] == -8;
    assert FILTER[5] == 1 && FILTER[6] == 1 && FILTER[7] == 1 && FILTER[8] == 1;
  }

  /** The weighted sum around (x, y) for a single lit byte v: -8 v at the lit pixel, v beside it, else 0. */
  lemma ImpulseSum(s: seq<Byte>, w: int, h: int, c: int, px: int, py: int, k: int, x: int, y: int)
    requires w > 0 && h > 0 && c > 0 && w * h * c <= |s|
    requires 0 <= px < w && 0 <= py < h && 0 <= k < c
    requires forall q :: 0 <= q < |s| && q != Idx(px, py, k, w, c) ==> s[q] == 0
    requires Inside(w, h, 3, x, y)
    ensures var v := Pixel(s, w, h, c, px, py, k) as int;
      ConvSum(s, w, h, c, FILTER, 3, x, y, k, 9)
        == if x == px && y == py then -8 * v
           else if -1 <= x - px <= 1 && -1 <= y - py <= 1 then v
           else 0
  {
    LaplacianSum(s, w, h, c, x, y, k);
    ImpulsePixel(s, w, h, c, px, py, k, x - 1, y - 1);
    ImpulsePixel(s, w, h, c, px, py, k, x, y - 1);
    ImpulsePixel(s, w, h, c, px, py, k, x + 1, y - 1);
    ImpulsePixel(s, w, h, c, px, py, k, x - 1, y);
    ImpulsePixel(s, w, h, c, px, py, k, x, y);
    ImpulsePixel(s, w, h, c, px, py, k, x + 1, y);
    ImpulsePixel(s, w, h, c, px, py, k, x - 1, y + 1);
    ImpulsePixel(s, w, h, c, px, py, k, x, y + 1);
    ImpulsePixel(s, w, h, c, px, py, k, x + 1, y + 1);
  }

  /** The byte the convolution writes around (x, y) for a single lit byte v, the divisor being 1. */
  lemma ImpulseByte(s: seq<Byte>, w: int, h: int, c: int, px: int, py: int, k: int, x: int, y: int)
    requires w > 0 && h > 0 && c > 0 && w * h * c <= |s|
    requires 0 <= px < w && 0 <= py < h && 0 <= k < c
    requires forall q :: 0 <= q < |s| && q != Idx(px, py, k, w, c) ==> s[q] == 0
    requires Inside(w, h, 3, x, y)
    ensures var v := Pixel(s, w, h, c, px, py, k) as int;
      Clip(Abs(ConvSum(s, w, h, c, FILTER, 3, x, y, k, 9)) / 1)
        == if x == px && y == py then Clip(8 * v)
           else if -1 <= x - px <= 1 && -1 <= y - py <= 1 then v
           else 0
  {
    var sum := ConvSum(s, w, h, c, FILTER, 3, x, y, k, 9);
    var v := Pixel(s, w, h, c, px, py, k) as int;
    ImpulseSum(s, w, h, c, px, py, k, x, y);
    if x == px && y == py {
      assert Abs(sum) == 8 * v;
    } else if -1 <= x - px <= 1 && -1 <= y - py <= 1 {
      assert Abs(sum) == v;
    } else {
      assert Abs(sum) == 0;
    }
  }

  /**
   * A single lit byte v on black: the kernel gives clip(8 v) at that pixel,
   * v at each of its eight neighbours and 0 everywhere else (the border
   * included, which the convolution leaves black).
   */
  lemma Impulse(width: int, height: int, s: seq<Byte>, px: int, py: int, k: int, x: int, y: int)
    requires width > 0 && height > 0
    requires Execute(width, height, s).Ok?
    requires 0 <= px < width && 0 <= py < height && 0 <= k < 3
    requires forall q :: 0 <= q < |s| && q != Idx(px, py, k, width, ChannelCount(|s|, width, height)) ==> s[q] == 0
    requires 0 <= x < width && 0 <= y < height
    ensures 0 <= Idx(px, py, k, width, ChannelCount(|s|, width, height)) < |s|
    ensures 0 <= Idx(x, y, k, width, ChannelCount(|s|, width, height)) < |s|
    ensures var c := ChannelCount(|s|, width, height);
      var v := s[Idx(px, py, k, width, c)] as int;
      Execute(width, height, s).value.data[Idx(x, y, k, width, c)]
        == if !Inside(width, height, 3, x, y) then 0
           else if x == px && y == py then Clip(8 * v)
           else if -1 <= x - px <= 1 && -1 <= y - py <= 1 then v
           else 0
  {
    var c := ChannelCount(|s|, width, height);
    KernelShape();
    SpatialAt(width, height, s, FILTER, 0, x, y, k);
    IdxBound(px, py, k, width, height, c);
    if Inside(width, height, 3, x, y) {
      ImpulseByte(s, width, height, c, px, py, k, x, y);
    }
  }
}
