/*
 * The Gaussian smoothing plugin: one call of `spatial` with a fixed 5 x 5
 * kernel and no explicit total.
 */
module Gaussian {
  import opened Core
  import opened Errors
  import opened Raster
  import opened Spatial

  /** The 5 x 5 kernel, row by row. */
  const FILTER: seq<int> := [
    2,  4,  5,  4,  2,
    4,  9, 12,  9,  4,
    5, 12, 15, 12,  5,
    4,  9, 12,  9,  4,
    2,  4,  5,  4,  2]

  /** `execute`: the convolution's result, passed through. */
  function Execute(width: int, height: int, data: seq<Byte>): (r: Result<ImageData>)
    requires width > 0 && height > 0
    ensures r == SpatialSpec(width, height, data, FILTER, 0)
    ensures r.Ok? ==> r.value.width == width && r.value.height == height && |r.value.data| == |data|
  {
    SpatialSpec(width, height, data, FILTER, 0)
  }

  /** 25 entries make a 5 x 5 kernel; they sum to 159, which is the divisor. */
  lemma KernelShape()
    ensures |FILTER| == 25 && FilterSize(|FILTER|) == 5
    ensures FILTER[..25] == FILTER
    ensures Sum(FILTER) == 159 && Divisor(FILTER, 0) == 159
  {
    ISqrtExact(25, 5);
    assert FILTER[..25] == FILTER;
    KernelSum();
  }

  lemma KernelSum()
    ensures Sum(FILTER) == 159
  {
    var r0, r1, r2 := [2, 4, 5, 4, 2], [4, 9, 12, 9, 4], [5, 12, 15, 12, 5];
    KernelRows();
    SumFive(2, 4, 5, 4, 2);
    SumFive(4, 9, 12, 9, 4);
    SumFive(5, 12, 15, 12, 5);
    SumConcat(r0, r1);
    SumConcat(r0 + r1, r2);
    SumConcat(r0 + r1 + r2, r1);
    SumConcat(r0 + r1 + r2 + r1, r0);
  }

  lemma KernelRows()
    ensures FILTER == [2, 4, 5, 4, 2] + [4, 9, 12, 9, 4] + [5, 12, 15, 12, 5] + [4, 9, 12, 9, 4] + [2, 4, 5, 4, 2]
  {
  }

  /** The kernel reads the same mirrored left-right, mirrored top-bottom and transposed. */
  lemma KernelSymmetric(row: int, col: int)
    requires 0 <= row < 5 && 0 <= col < 5
    ensures FILTER[5 * row + col] == FILTER[5 * row + (4 - col)]
    ensures FILTER[5 * row + col] == FILTER[5 * (4 - row) + col]
    ensures FILTER[5 * row + col] == FILTER[5 * col + row]
  {
    if row == 0 && col == 0 {
    } else if row == 0 && col == 1 {
    } else if row == 0 && col == 2 {
    } else if row == 0 && col == 3 {
    } else if row == 0 && col == 4 {
    } else if row == 1 && col == 0 {
    } else if row == 1 && col == 1 {
    } else if row == 1 && col == 2 {
    } else if row == 1 && col == 3 {
    } else if row == 1 && col == 4 {
    } else if row == 2 && col == 0 {
    } else if row == 2 && col == 1 {
    } else if row == 2 && col == 2 {
    } else if row == 2 && col == 3 {
    } else if row == 2 && col == 4 {
    } else if row == 3 && col == 0 {
    } else if row == 3 && col == 1 {
    } else if row == 3 && col == 2 {
    } else if row == 3 && col == 3 {
    } else if row == 3 && col == 4 {
    } else if row == 4 && col == 0 {
    } else if row == 4 && col == 1 {
    } else if row == 4 && col == 2 {
    } else if row == 4 && col == 3 {
    } else {
      assert row == 4 && col == 4;
    }
  }

  /**
   * On an image whose bytes are all v, a colour byte of a pixel at least two
   * pixels from every side keeps the value v; the colour bytes of the
   * two-pixel border are 0.
   */
  lemma UniformImage(width: int, height: int, s: seq<Byte>, v: Byte, x: int, y: int, k: int)
    requires width > 0 && height > 0
    requires Execute(width, height, s).Ok?
    requires forall q :: 0 <= q < |s| ==> s[q] == v
    requires 0 <= x < width && 0 <= y < height && 0 <= k < 3
    ensures 0 <= Idx(x, y, k, width, ChannelCount(|s|, width, height)) < |s|
    ensures Execute(width, height, s).value.data[Idx(x, y, k, width, ChannelCount(|s|, width, height))]
      == if 2 <= x < width - 2 && 2 <= y < height - 2 then v else 0
  {
    KernelShape();
    SpatialUniform(width, height, s, FILTER, 0, v, x, y, k);
    assert Abs(v * 159) / 159 == v;
  }
}
