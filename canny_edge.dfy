/*
 * The "Canny" edge-detect plugin: four directional convolutions of the
 * unsmoothed image, summed byte by byte and thresholded. The Gaussian pass
 * it starts with is computed and thrown away.
 */
module CannyEdge {
  import opened Core
  import opened Errors
  import opened Raster
  import opened Spatial

  const GAUSSIAN: seq<int> := [
    2,  4,  5,  4,  2,
    4,  9, 12,  9,  4,
    5, 12, 15, 12,  5,
    4,  9, 12,  9,  4,
    2,  4,  5,  4,  2]

  /** Left-to-right difference. */
  const FILTER1: seq<int> := [
     0,  0,  0,
    -1,  0,  1,
     0,  0,  0]

  /** Bottom-to-top difference. */
  const FILTER2: seq<int> := [
     0,  1,  0,
     0,  0,  0,
     0, -1,  0]

  /** Main-diagonal difference. */
  const FILTER3: seq<int> := [
    -1,  0,  0,
     0,  0,  0,
     0,  0,  1]

  /** Anti-diagonal difference. */
  const FILTER4: seq<int> := [
     0,  0,  1,
     0,  0,  0,
    -1,  0,  0]

  /** The first comprehension: the four edge bytes at each offset summed and capped at 255. */
  function Combine(e1: seq<Byte>, e2: seq<Byte>, e3: seq<Byte>, e4: seq<Byte>): (r: seq<Byte>)
    requires |e1| == |e2| == |e3| == |e4|
    ensures |r| == |e1|
    ensures forall i :: 0 <= i < |r| ==> r[i] == Min(255, e1[i] as int + e2[i] as int + e3[i] as int + e4[i] as int)
  {
    seq(|e1|, i requires 0 <= i < |e1| => Min(255, e1[i] as int + e2[i] as int + e3[i] as int + e4[i] as int) as Byte)
  }

  /** The second comprehension: a byte above 64 becomes min(255, 4 * byte), any other byte 0. */
  function Threshold(d: seq<Byte>): (r: seq<Byte>)
    ensures |r| == |d|
    ensures forall i :: 0 <= i < |r| ==> r[i] == 0 || r[i] == 255
    ensures forall i :: 0 <= i < |r| ==> (r[i] == 255 <==> d[i] > 64)
  {
    seq(|d|, i requires 0 <= i < |d| => if d[i] > 64 then Min(255, d[i] as int * 4) as Byte else 0)
  }

  /**
   * `execute`: the Gaussian call only raises the channel-count error; the
   * four directional calls read the original bytes (`spatial` leaves its
   * input alone, and each gets a copy anyway).
   */
  function Execute(width: int, height: int, data: seq<Byte>): (r: Result<ImageData>)
    requires width > 0 && height > 0
    ensures r.Err? <==> SpatialSpec(width, height, data, GAUSSIAN, 0).Err?
    ensures r.Ok? ==> r.value.width == width && r.value.height == height && |r.value.data| == |data|
    ensures r.Ok? ==> forall i :: 0 <= i < |r.value.data| ==> r.value.data[i] == 0 || r.value.data[i] == 255
  {
    match SpatialSpec(width, height, data, GAUSSIAN, 0)
    case Err(e) => Err(e)
    case Ok(_) =>
      var edge1 := SpatialSpec(width, height, data, FILTER1, 0).value.data;
      var edge2 := SpatialSpec(width, height, data, FILTER2, 0).value.data;
      var edge3 := SpatialSpec(width, height, data, FILTER3, 0).value.data;
      var edge4 := SpatialSpec(width, height, data, FILTER4, 0).value.data;
      Ok(ImageData(width, height, Threshold(Combine(edge1, edge2, edge3, edge4))))
  }

  /** Each directional kernel is 3 x 3 and sums to 0, so `spatial` divides by 1. */
  lemma DirectionalKernels()
    ensures |FILTER1| == |FILTER2| == |FILTER3| == |FILTER4| == 9 && FilterSize(9) == 3
    ensures Sum(FILTER1) == 0 && Sum(FILTER2) == 0 && Sum(FILTER3) == 0 && Sum(FILTER4) == 0
    ensures Divisor(FILTER1, 0) == 1 && Divisor(FILTER2, 0) == 1 && Divisor(FILTER3, 0) == 1 && Divisor(FILTER4, 0) == 1
  {
    ISqrtExact(9, 3);
    KernelSumZero(FILTER1);
    KernelSumZero(FILTER2);
    KernelSumZero(FILTER3);
    KernelSumZero(FILTER4);
  }

  /** A 3 x 3 kernel of one 1, one -1 and seven 0s sums to 0. */
  lemma KernelSumZero(t: seq<int>)
    requires t == FILTER1 || t == FILTER2 || t == FILTER3 || t == FILTER4
    ensures Sum(t) == 0
  {
    assert t == t[..3] + t[3..6] + t[6..];
    SumThree(t[0], t[1], t[2]);
    SumThree(t[3], t[4], t[5]);
    SumThree(t[6], t[7], t[8]);
    assert t[..3] == [t[0], t[1], t[2]];
    assert t[3..6] == [t[3], t[4], t[5]];
    assert t[6..] == [t[6], t[7], t[8]];
    SumConcat(t[..3], t[3..6]);
    SumConcat(t[..3] + t[3..6], t[6..]);
  }
}
