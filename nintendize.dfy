/*
 * The "nintendize" extension: the image is cut into size x size blocks,
 * each whole block is filled with its average colour reduced to
 * `colorlevel` bits per channel, and the reduced bits are repeated down
 * the byte so the image does not darken. Everything outside the whole
 * blocks, and every alpha byte, stays 0 in the fresh output.
 */
module Nintendize {
  import opened Core
  import opened Errors
  import opened Raster
  import opened Spatial

  // ------------------------------------------------------------- bits

  /**
   * `(0xff << (8 - colorlevel)) & 0xff`: the top `level` bits of a byte.
   * Bit levels are kept as bv8 values: colorlevel is clamped to at most 8.
   */
  function Mask(level: bv8): bv8
    requires 1 <= level <= 8
  {
    0xFF << (8 - level)
  }

  /** The mask and the low 8 - level bits split the byte between them. */
  lemma MaskBits(level: bv8)
    requires 1 <= level <= 8
    ensures Mask(level) & (0xFF >> level) == 0
    ensures Mask(level) | (0xFF >> level) == 0xFF
    ensures level == 8 <==> Mask(level) == 0xFF
  {
  }

  /** The replication loop from shift k on: `v |= v >> k`, doubling k while it is below 8. */
  function ReplicateFrom(v: bv8, k: bv8): bv8
    requires 1 <= k <= 16
    decreases 16 - k
  {
    if k >= 8 then v else ReplicateFrom(v | (v >> k), 2 * k)
  }

  /**
   * Replicating the top `level` bits of a masked byte keeps those bits and
   * makes every lower bit a copy of the bit `level` places above it, so the
   * byte repeats its top `level` bits from the most significant end.
   * (For level 8 the second half says only 0 == 0.)
   */
  lemma ReplicateBits(a: bv8, level: bv8)
    requires 1 <= level <= 8
    ensures var r := ReplicateFrom(a & Mask(level), level);
      r & Mask(level) == a & Mask(level) && r >> level == r & (0xFF >> level)
  {
    var t := a & Mask(level);
    if level == 1 {
      var t1 := t | (t >> 1);
      assert ReplicateFrom(t, 1) == ReplicateFrom(t1 | (t1 >> 2), 4);
    } else if level == 2 {
    } else if level == 3 {
    } else if level == 4 {
    } else if level == 5 {
    } else if level == 6 {
    } else if level == 7 {
    } else {
    }
  }

  /** The two properties fix the result: no other byte keeps the top bits and repeats them. */
  lemma ReplicateUnique(a: bv8, level: bv8, r: bv8)
    requires 1 <= level <= 8
    requires r & Mask(level) == a & Mask(level) && r >> level == r & (0xFF >> level)
    ensures r == ReplicateFrom(a & Mask(level), level)
  {
    ReplicateBits(a, level);
  }

  /** The byte a block gets from its average: masked, then its bits replicated. */
  function Quantize(average: bv8, level: bv8): (r: bv8)
    requires 1 <= level <= 8
  {
    ReplicateFrom(average & Mask(level), level)
  }

  /** With eight bits kept, the block gets its average unchanged. */
  lemma QuantizeFull(average: bv8)
    ensures Quantize(average, 8) == average
  {
    MaskBits(8);
  }

  /** Averages that agree in their top `level` bits give the same byte; those bits survive. */
  lemma QuantizeTopBits(a: bv8, b: bv8, level: bv8)
    requires 1 <= level <= 8
    ensures Quantize(a, level) & Mask(level) == a & Mask(level)
    ensures a & Mask(level) == b & Mask(level) <==> Quantize(a, level) == Quantize(b, level)
  {
    var ma, mb := a & Mask(level), b & Mask(level);
    ReplicateBits(a, level);
    ReplicateBits(b, level);
    if ma == mb {
      assert Quantize(a, level) == ReplicateFrom(ma, level) == ReplicateFrom(mb, level) == Quantize(b, level);
    }
  }

  /** A C `int` argument read into an `unsigned int` (two's complement, 32 bits). */
  function AsUnsigned(x: int): (u: int)
    ensures 0 <= u < 0x1_0000_0000
    ensures x >= 0 ==> (x < 0x1_0000_0000 ==> u == x)
    ensures -0x8000_0000 <= x < 0 ==> u >= 0x8000_0000
  {
    x % 0x1_0000_0000
  }

  /**
   * `min(colorlevel, 8)` on the unsigned colorlevel: the number of bits
   * kept per channel. A negative argument reads as a large unsigned value,
   * so it keeps all 8 bits; 0 is excluded (the replication loop would
   * never end).
   */
  function Level(colorlevel: int): (level: bv8)
    requires -0x8000_0000 <= colorlevel < 0x8000_0000 && colorlevel != 0
    ensures 1 <= level <= 8
    ensures colorlevel > 0 ==> level as int == Min(colorlevel, 8)
    ensures colorlevel < 0 ==> level == 8
  {
    var u := AsUnsigned(colorlevel);
    if u >= 8 then 8 else u as bv8
  }

  // ----------------------------------------------------------- blocks

  /**
   * The block size: the shorter side divided by the unsigned resolution,
   * kept within [1, shorter side]. A negative resolution reads as a large
   * unsigned value, so the quotient is 0 and the size 1.
   */
  function BlockSize(width: int, height: int, resolution: int): (size: int)
    requires 0 < width < 0x8000_0000 && 0 < height < 0x8000_0000
    requires -0x8000_0000 <= resolution < 0x8000_0000 && resolution != 0
    ensures 1 <= size <= Min(width, height)
    ensures 0 < resolution <= Min(width, height) ==> size == Min(width, height) / resolution
    ensures resolution < 0 || resolution > Min(width, height) ==> size == 1
  {
    QuotientBounds(Min(width, height), AsUnsigned(resolution));
    var size := Min(width, height) / AsUnsigned(resolution);
    var size' := Min(size, Min(width, height));
    Max(size', 1)
  }

  lemma QuotientBounds(a: int, d: int)
    requires a >= 0 && d >= 1
    ensures 0 <= a / d <= a
    ensures d <= a ==> a / d >= 1
    ensures a < d ==> a / d == 0
  {
    if a < d {
      DivModUnique(a, d, 0, a);
    } else {
      DivModUnique(a - d, d, (a - d) / d, (a - d) % d);
      DivModUnique(a, d, (a - d) / d + 1, (a - d) % d);
    }
  }

  /** A block b counted among the n / size whole blocks of a side lies inside that side. */
  lemma BlockFits(b: int, n: int, size: int)
    requires size >= 1 && 0 <= b < n / size && n >= 0
    ensures (b + 1) * size <= n
  {
    MulLe(b + 1, n / size, size);
  }

  /** Cell m of a block (row-major, m / size rows down and m % size columns across). */
  lemma CellOffsets(m: int, size: int)
    requires size >= 1 && 0 <= m < size * size
    ensures 0 <= m % size < size && 0 <= m / size < size
    ensures m == (m / size) * size + m % size
  {
    WindowOffsets(m, size);
  }

  /** Pixel (b * size + o) of a side with whole block b lies inside it. */
  lemma CellInside(b: int, o: int, n: int, size: int)
    requires size >= 1 && b >= 0 && (b + 1) * size <= n && 0 <= o < size
    ensures 0 <= b * size + o < n
  {
  }

  /** Block (bcol, brow) is a whole size x size block of a w x h image held in n bytes. */
  predicate WholeBlock(n: int, w: int, h: int, c: int, size: int, bcol: int, brow: int)
  {
    w > 0 && h > 0 && c > 0 && w * h * c <= n && size >= 1
    && bcol >= 0 && brow >= 0 && (bcol + 1) * size <= w && (brow + 1) * size <= h
  }

  /** The sum of channel ch over the first n cells of block (bcol, brow), in the C loop's order. */
  function BlockSum(s: seq<Byte>, w: int, h: int, c: int, size: int, bcol: int, brow: int, ch: int, n: int): int
    requires WholeBlock(|s|, w, h, c, size, bcol, brow)
    requires 0 <= ch < c && 0 <= n <= size * size
    decreases n
  {
    if n == 0 then 0
    else
      CellOffsets(n - 1, size);
      CellInside(bcol, (n - 1) % size, w, size);
      CellInside(brow, (n - 1) / size, h, size);
      IdxBound(bcol * size + (n - 1) % size, brow * size + (n - 1) / size, ch, w, h, c);
      BlockSum(s, w, h, c, size, bcol, brow, ch, n - 1) + s[Idx(bcol * size + (n - 1) % size, brow * size + (n - 1) / size, ch, w, c)]
  }

  /** The byte block (bcol, brow) gets in channel ch: the truncated average, clipped, masked and replicated. */
  function BlockByte(s: seq<Byte>, w: int, h: int, c: int, size: int, level: bv8, bcol: int, brow: int, ch: int): Byte
    requires WholeBlock(|s|, w, h, c, size, bcol, brow) && 1 <= level <= 8 && 0 <= ch < c
  {
    Quantize(Average(BlockSum(s, w, h, c, size, bcol, brow, ch, size * size), size), level) as int
  }

  /** (red, green, blue) is the colour block (bcol, brow) is filled with. */
  predicate IsBlockColour(s: seq<Byte>, w: int, h: int, c: int, size: int, level: bv8, bcol: int, brow: int, red: int, green: int, blue: int)
    requires WholeBlock(|s|, w, h, c, size, bcol, brow) && c >= 3 && 1 <= level <= 8
  {
    red == BlockByte(s, w, h, c, size, level, bcol, brow, 0)
    && green == BlockByte(s, w, h, c, size, level, bcol, brow, 1)
    && blue == BlockByte(s, w, h, c, size, level, bcol, brow, 2)
  }

  /** `clip(tmp / (size * size))`: a channel sum's truncated mean, clipped to a byte. */
  function Average(sum: int, size: int): bv8
    requires size >= 1
  {
    Clip(sum / (size * size)) as bv8
  }

  /** The block a byte belongs to, and its cell in that block. */
  function BlockX(q: int, w: int, c: int, size: int): int
    requires w > 0 && c > 0 && size >= 1
  {
    ColOf(q, w, c) / size
  }

  function BlockY(q: int, w: int, c: int, size: int): int
    requires w > 0 && c > 0 && size >= 1
  {
    RowOf(q, w, c) / size
  }

  function Cell(q: int, w: int, c: int, size: int): int
    requires w > 0 && c > 0 && size >= 1
  {
    (RowOf(q, w, c) % size) * size + ColOf(q, w, c) % size
  }

  /** Colour byte q lies in one of the whole blocks. */
  predicate Covered(q: int, w: int, h: int, c: int, size: int)
    requires w > 0 && c > 0 && size >= 1
  {
    0 <= q && ChanOf(q, c) < 3 && BlockX(q, w, c, size) < w / size && BlockY(q, w, c, size) < h / size
  }

  lemma DivNonNegative(a: int, d: int)
    requires a >= 0 && d > 0
    ensures a / d >= 0
  {
  }

  /** A covered byte's block is a whole block of the image. */
  lemma CoveredBlock(q: int, w: int, h: int, c: int, size: int)
    requires w > 0 && h > 0 && c > 0 && size >= 1 && Covered(q, w, h, c, size)
    ensures 0 <= BlockX(q, w, c, size) && (BlockX(q, w, c, size) + 1) * size <= w
    ensures 0 <= BlockY(q, w, c, size) && (BlockY(q, w, c, size) + 1) * size <= h
    ensures 0 <= ChanOf(q, c) < c
  {
    var p := q / c;
    DivNonNegative(q, c);
    DivNonNegative(p, w);
    var bx, bw := (p % w) / size, (p / w) / size;
    DivNonNegative(p % w, size);
    DivNonNegative(p / w, size);
    BlockFits(bx, w, size);
    BlockFits(bw, h, size);
  }

  /** Output byte q of the block loops: its block's byte when covered, else 0. */
  function StageByte(s: seq<Byte>, w: int, h: int, c: int, size: int, level: bv8, q: int): Byte
    requires w > 0 && h > 0 && c > 0 && w * h * c <= |s| && size >= 1 && 1 <= level <= 8 && q >= 0
  {
    if Covered(q, w, h, c, size) then
      CoveredBlock(q, w, h, c, size);
      BlockByte(s, w, h, c, size, level, BlockX(q, w, c, size), BlockY(q, w, c, size), ChanOf(q, c))
    else 0
  }

  /** The output of the block loops, one StageByte per input byte. */
  function NintendizeStage(s: seq<Byte>, w: int, h: int, c: int, size: int, level: bv8): (r: seq<Byte>)
    requires w > 0 && h > 0 && c > 0 && w * h * c <= |s| && size >= 1 && 1 <= level <= 8
    ensures |r| == |s|
  {
    seq(|s|, q requires 0 <= q < |s| => StageByte(s, w, h, c, size, level, q))
  }

  /**
   * What the call demands: positive C `int` sides (the channel count
   * divides by their product), a non-zero resolution (it divides the
   * shorter side) and a non-zero colorlevel (the replication loop would
   * not end).
   */
  predicate Arguments(width: int, height: int, resolution: int, colorlevel: int)
  {
    0 < width < 0x8000_0000 && 0 < height < 0x8000_0000
    && -0x8000_0000 <= resolution < 0x8000_0000 && resolution != 0
    && -0x8000_0000 <= colorlevel < 0x8000_0000 && colorlevel != 0
  }

  /** `nintendize`: the result of the call, errors included. */
  function NintendizeSpec(width: int, height: int, s: seq<Byte>, resolution: int, colorlevel: int): (r: Result<ImageData>)
    requires Arguments(width, height, resolution, colorlevel)
    ensures r.Err? <==> CheckChannels(|s|, width, height).Err?
    ensures r.Err? ==> r.error == ValueError
    ensures r.Ok? ==> r.value.width == width && r.value.height == height && |r.value.data| == |s|
  {
    match CheckChannels(|s|, width, height)
    case Err(e) => Err(e)
    case Ok(c) =>
      PixelBytesFit(|s|, width, height);
      var size := BlockSize(width, height, resolution);
      Ok(ImageData(width, height, NintendizeStage(s, width, height, c, size, Level(colorlevel))))
  }

  /** Byte k of pixel (bcol * size + o1, brow * size + o2), a pixel of whole block (bcol, brow). */
  lemma StageAt(s: seq<Byte>, w: int, h: int, c: int, size: int, level: bv8, bcol: int, brow: int, o1: int, o2: int, k: int)
    requires w > 0 && h > 0 && c > 0 && w * h * c <= |s| && size >= 1 && 1 <= level <= 8
    requires 0 <= bcol < w / size && 0 <= brow < h / size && 0 <= o1 < size && 0 <= o2 < size && 0 <= k < c
    ensures (bcol + 1) * size <= w && (brow + 1) * size <= h
    ensures 0 <= Idx(bcol * size + o1, brow * size + o2, k, w, c) < |s|
    ensures NintendizeStage(s, w, h, c, size, level)[Idx(bcol * size + o1, brow * size + o2, k, w, c)]
         == if k < 3 then BlockByte(s, w, h, c, size, level, bcol, brow, k) else 0
  {
    var x, y := bcol * size + o1, brow * size + o2;
    BlockFits(bcol, w, size);
    BlockFits(brow, h, size);
    IdxBound(x, y, k, w, h, c);
    DecodeIdx(x, y, k, w, c);
    DivModUnique(x, size, bcol, o1);
    DivModUnique(y, size, brow, o2);
  }

  // ------------------------------------------------------ fill order

  /**
   * The block loops run over block columns, then block rows, then the
   * cells of a block row by row: byte q is done once its block comes
   * before (bcol, brow), or is that block and its cell comes before n.
   */
  predicate Done(q: int, w: int, c: int, size: int, bcol: int, brow: int, n: int)
    requires w > 0 && c > 0 && size >= 1
  {
    var qx, qy := BlockX(q, w, c, size), BlockY(q, w, c, size);
    qx < bcol || (qx == bcol && (qy < brow || (qy == brow && Cell(q, w, c, size) < n)))
  }

  /** Done bytes hold their final value; the others are still 0. */
  ghost predicate BlocksFilled(out: seq<Byte>, spec: seq<Byte>, w: int, c: int, size: int, bcol: int, brow: int, n: int)
    requires w > 0 && c > 0 && size >= 1
  {
    |out| == |spec| && forall q :: 0 <= q < |spec| ==> out[q] == if Done(q, w, c, size, bcol, brow, n) then spec[q] else 0
  }

  /** Cell n of block (bcol, brow) is pixel (bcol * size + n % size, brow * size + n / size). */
  lemma DoneStep(q: int, w: int, c: int, size: int, bcol: int, brow: int, n: int)
    requires w > 0 && c > 0 && size >= 1 && q >= 0 && bcol >= 0 && brow >= 0 && 0 <= n < size * size
    ensures Done(q, w, c, size, bcol, brow, n + 1)
        <==> Done(q, w, c, size, bcol, brow, n)
             || (ColOf(q, w, c) == bcol * size + n % size && RowOf(q, w, c) == brow * size + n / size)
    ensures ColOf(q, w, c) == bcol * size + n % size && RowOf(q, w, c) == brow * size + n / size
            ==> !Done(q, w, c, size, bcol, brow, n)
  {
    EncodeDecode(q, w, c);
    CellOffsets(n, size);
    var px, py := ColOf(q, w, c), RowOf(q, w, c);
    assert px == (px / size) * size + px % size;
    assert py == (py / size) * size + py % size;
    if px == bcol * size + n % size && py == brow * size + n / size {
      DivModUnique(px, size, bcol, n % size);
      DivModUnique(py, size, brow, n / size);
    } else if BlockX(q, w, c, size) == bcol && BlockY(q, w, c, size) == brow && Cell(q, w, c, size) == n {
      DivModUnique(n, size, py % size, px % size);
    }
  }

  /** Every cell index is below size * size. */
  lemma CellBound(q: int, w: int, c: int, size: int)
    requires w > 0 && c > 0 && size >= 1 && q >= 0
    ensures 0 <= Cell(q, w, c, size) < size * size
    ensures 0 <= BlockX(q, w, c, size) && 0 <= BlockY(q, w, c, size)
  {
    EncodeDecode(q, w, c);
    DivNonNegative(ColOf(q, w, c), size);
    DivNonNegative(RowOf(q, w, c), size);
    var a, b := RowOf(q, w, c) % size, ColOf(q, w, c) % size;
    MulLe(a + 1, size, size);
  }

  lemma FilledStart(out: seq<Byte>, spec: seq<Byte>, w: int, c: int, size: int)
    requires w > 0 && c > 0 && size >= 1
    requires |out| == |spec| && forall q :: 0 <= q < |out| ==> out[q] == 0
    ensures BlocksFilled(out, spec, w, c, size, 0, 0, 0)
  {
    forall q | 0 <= q < |spec| ensures !Done(q, w, c, size, 0, 0, 0) {
      EncodeDecode(q, w, c);
    }
  }

  lemma FilledNextRow(out: seq<Byte>, spec: seq<Byte>, w: int, c: int, size: int, bcol: int, brow: int)
    requires w > 0 && c > 0 && size >= 1
    requires BlocksFilled(out, spec, w, c, size, bcol, brow, size * size)
    ensures BlocksFilled(out, spec, w, c, size, bcol, brow + 1, 0)
  {
    forall q | 0 <= q < |spec|
      ensures Done(q, w, c, size, bcol, brow, size * size) == Done(q, w, c, size, bcol, brow + 1, 0)
    {
      CellBound(q, w, c, size);
    }
  }

  /** Bytes outside the whole blocks, and alpha bytes, are 0 in the output. */
  lemma StageUncovered(s: seq<Byte>, w: int, h: int, c: int, size: int, level: bv8, q: int)
    requires w > 0 && h > 0 && c > 0 && w * h * c <= |s| && size >= 1 && 1 <= level <= 8
    requires 0 <= q < |s| && !Covered(q, w, h, c, size)
    ensures NintendizeStage(s, w, h, c, size, level)[q] == 0
  {
  }

  /** Past the last whole block row, the rest of a block column is uncovered, so 0. */
  lemma ColumnStep(s: seq<Byte>, w: int, h: int, c: int, size: int, level: bv8, bcol: int, brow: int, q: int)
    requires w > 0 && h > 0 && c > 0 && w * h * c <= |s| && size >= 1 && 1 <= level <= 8
    requires brow >= h / size && 0 <= q < |s|
    ensures Done(q, w, c, size, bcol + 1, 0, 0) == Done(q, w, c, size, bcol, brow, 0)
         || (!Done(q, w, c, size, bcol, brow, 0) && NintendizeStage(s, w, h, c, size, level)[q] == 0)
  {
    CellBound(q, w, c, size);
    var qx, qy := BlockX(q, w, c, size), BlockY(q, w, c, size);
    if qx == bcol && qy >= brow {
      assert !Covered(q, w, h, c, size);
      StageUncovered(s, w, h, c, size, level, q);
      assert !Done(q, w, c, size, bcol, brow, 0);
    } else {
      assert Done(q, w, c, size, bcol + 1, 0, 0) == (qx <= bcol);
      assert Done(q, w, c, size, bcol, brow, 0) == (qx < bcol || (qx == bcol && qy < brow));
    }
  }

  lemma FilledNextColumn(out: seq<Byte>, s: seq<Byte>, w: int, h: int, c: int, size: int, level: bv8, bcol: int, brow: int)
    requires w > 0 && h > 0 && c > 0 && w * h * c <= |s| && size >= 1 && 1 <= level <= 8
    requires brow >= h / size
    requires BlocksFilled(out, NintendizeStage(s, w, h, c, size, level), w, c, size, bcol, brow, 0)
    ensures BlocksFilled(out, NintendizeStage(s, w, h, c, size, level), w, c, size, bcol + 1, 0, 0)
  {
    var spec := NintendizeStage(s, w, h, c, size, level);
    forall q | 0 <= q < |spec|
      ensures out[q] == if Done(q, w, c, size, bcol + 1, 0, 0) then spec[q] else 0
    {
      ColumnStep(s, w, h, c, size, level, bcol, brow, q);
    }
  }

  lemma FilledDone(out: seq<Byte>, s: seq<Byte>, w: int, h: int, c: int, size: int, level: bv8, bcol: int)
    requires w > 0 && h > 0 && c > 0 && w * h * c <= |s| && size >= 1 && 1 <= level <= 8
    requires bcol >= w / size
    requires BlocksFilled(out, NintendizeStage(s, w, h, c, size, level), w, c, size, bcol, 0, 0)
    ensures out == NintendizeStage(s, w, h, c, size, level)
  {
    var spec := NintendizeStage(s, w, h, c, size, level);
    forall q | 0 <= q < |spec| ensures out[q] == spec[q] {
      assert spec[q] == StageByte(s, w, h, c, size, level, q);
    }
  }

  /**
   * Cell n's three colour bytes become done with it; any other byte
   * changes from not done to done only if it is the cell's alpha byte,
   * which is 0 in the output.
   */
  lemma CellStep(s: seq<Byte>, w: int, h: int, c: int, size: int, level: bv8, bcol: int, brow: int, n: int, q: int)
    requires w > 0 && h > 0 && (c == 3 || c == 4) && w * h * c <= |s| && size >= 1 && 1 <= level <= 8
    requires 0 <= bcol < w / size && 0 <= brow < h / size && 0 <= n < size * size && 0 <= q < |s|
    ensures var i0 := Idx(bcol * size + n % size, brow * size + n / size, 0, w, c);
      if q == i0 || q == i0 + 1 || q == i0 + 2 then Done(q, w, c, size, bcol, brow, n + 1)
      else (Done(q, w, c, size, bcol, brow, n + 1) == Done(q, w, c, size, bcol, brow, n)
            || (!Done(q, w, c, size, bcol, brow, n) && NintendizeStage(s, w, h, c, size, level)[q] == 0))
  {
    CellOffsets(n, size);
    ghost var o1, o2 := n % size, n / size;
    var x, y := bcol * size + o1, brow * size + o2;
    var i0 := Idx(x, y, 0, w, c);
    DoneStep(q, w, c, size, bcol, brow, n);
    BlockFits(bcol, w, size);
    CellInside(bcol, o1, w, size);
    if q == i0 || q == i0 + 1 || q == i0 + 2 {
      DecodeIdx(x, y, q - i0, w, c);
    } else if ColOf(q, w, c) == x && RowOf(q, w, c) == y {
      EncodeDecode(q, w, c);
      assert q == i0 + ChanOf(q, c);
      StageAt(s, w, h, c, size, level, bcol, brow, o1, o2, ChanOf(q, c));
    }
  }

  /** The three colour bytes of cell n in the output are its block's colour. */
  lemma StageCell(s: seq<Byte>, w: int, h: int, c: int, size: int, level: bv8, bcol: int, brow: int, n: int, i0: int)
    requires w > 0 && h > 0 && (c == 3 || c == 4) && w * h * c <= |s| && size >= 1 && 1 <= level <= 8
    requires 0 <= bcol < w / size && 0 <= brow < h / size && 0 <= n < size * size
    requires i0 == Idx(bcol * size + n % size, brow * size + n / size, 0, w, c)
    ensures (bcol + 1) * size <= w && (brow + 1) * size <= h
    ensures 0 <= i0 && i0 + 2 < |s|
    ensures var spec := NintendizeStage(s, w, h, c, size, level);
      spec[i0] == BlockByte(s, w, h, c, size, level, bcol, brow, 0)
      && spec[i0 + 1] == BlockByte(s, w, h, c, size, level, bcol, brow, 1)
      && spec[i0 + 2] == BlockByte(s, w, h, c, size, level, bcol, brow, 2)
  {
    CellOffsets(n, size);
    var o1, o2 := n % size, n / size;
    assert Idx(bcol * size + o1, brow * size + o2, 1, w, c) == i0 + 1;
    assert Idx(bcol * size + o1, brow * size + o2, 2, w, c) == i0 + 2;
    StageAt(s, w, h, c, size, level, bcol, brow, o1, o2, 0);
    StageAt(s, w, h, c, size, level, bcol, brow, o1, o2, 1);
    StageAt(s, w, h, c, size, level, bcol, brow, o1, o2, 2);
  }

  /** Writing the three colour bytes of cell n completes it (its alpha byte is already 0). */
  lemma FillCell(out: seq<Byte>, s: seq<Byte>, w: int, h: int, c: int, size: int, level: bv8, bcol: int, brow: int, n: int, i0: int)
    requires w > 0 && h > 0 && (c == 3 || c == 4) && w * h * c <= |s| && size >= 1 && 1 <= level <= 8
    requires 0 <= bcol < w / size && 0 <= brow < h / size && 0 <= n < size * size
    requires i0 == Idx(bcol * size + n % size, brow * size + n / size, 0, w, c) && 0 <= i0 && i0 + 2 < |s|
    requires BlocksFilled(out, NintendizeStage(s, w, h, c, size, level), w, c, size, bcol, brow, n)
    ensures var spec := NintendizeStage(s, w, h, c, size, level);
      BlocksFilled(out[i0 := spec[i0]][i0 + 1 := spec[i0 + 1]][i0 + 2 := spec[i0 + 2]], spec, w, c, size, bcol, brow, n + 1)
  {
    var spec := NintendizeStage(s, w, h, c, size, level);
    var out' := out[i0 := spec[i0]][i0 + 1 := spec[i0 + 1]][i0 + 2 := spec[i0 + 2]];
    forall q | 0 <= q < |spec|
      ensures out'[q] == if Done(q, w, c, size, bcol, brow, n + 1) then spec[q] else 0
    {
      CellStep(s, w, h, c, size, level, bcol, brow, n, q);
    }
    assert BlocksFilled(out', spec, w, c, size, bcol, brow, n + 1);
  }

  // -------------------------------------------------- output properties

  /** Every colour byte of a whole block, in one channel, gets the same value. */
  lemma BlockUniform(s: seq<Byte>, w: int, h: int, c: int, size: int, level: bv8, q1: int, q2: int)
    requires w > 0 && h > 0 && c > 0 && w * h * c <= |s| && size >= 1 && 1 <= level <= 8
    requires 0 <= q1 < |s| && 0 <= q2 < |s| && Covered(q1, w, h, c, size)
    requires BlockX(q1, w, c, size) == BlockX(q2, w, c, size) && BlockY(q1, w, c, size) == BlockY(q2, w, c, size)
    requires ChanOf(q1, c) == ChanOf(q2, c)
    ensures Covered(q2, w, h, c, size)
    ensures NintendizeStage(s, w, h, c, size, level)[q1] == NintendizeStage(s, w, h, c, size, level)[q2]
  {
    assert NintendizeStage(s, w, h, c, size, level)[q1] == StageByte(s, w, h, c, size, level, q1);
    assert NintendizeStage(s, w, h, c, size, level)[q2] == StageByte(s, w, h, c, size, level, q2);
  }

  /**
   * A covered byte is its block's channel average reduced to `level` bits
   * (QuantizeTopBits and ReplicateBits say what that keeps).
   */
  lemma CoveredColour(s: seq<Byte>, w: int, h: int, c: int, size: int, level: bv8, q: int)
    requires w > 0 && h > 0 && c > 0 && w * h * c <= |s| && size >= 1 && 1 <= level <= 8
    requires 0 <= q < |s| && Covered(q, w, h, c, size)
    ensures WholeBlock(|s|, w, h, c, size, BlockX(q, w, c, size), BlockY(q, w, c, size)) && 0 <= ChanOf(q, c) < c
    ensures NintendizeStage(s, w, h, c, size, level)[q]
         == Quantize(Average(BlockSum(s, w, h, c, size, BlockX(q, w, c, size), BlockY(q, w, c, size), ChanOf(q, c), size * size), size), level) as int
  {
    CoveredBlock(q, w, h, c, size);
    assert NintendizeStage(s, w, h, c, size, level)[q] == StageByte(s, w, h, c, size, level, q);
  }

  /** With all eight bits kept, a covered byte is its block's average (clipped), unreduced. */
  lemma FullColour(s: seq<Byte>, w: int, h: int, c: int, size: int, q: int)
    requires w > 0 && h > 0 && c > 0 && w * h * c <= |s| && size >= 1
    requires 0 <= q < |s| && Covered(q, w, h, c, size)
    ensures WholeBlock(|s|, w, h, c, size, BlockX(q, w, c, size), BlockY(q, w, c, size)) && 0 <= ChanOf(q, c) < c
    ensures NintendizeStage(s, w, h, c, size, 8)[q] as bv8
         == Average(BlockSum(s, w, h, c, size, BlockX(q, w, c, size), BlockY(q, w, c, size), ChanOf(q, c), size * size), size)
  {
    CoveredColour(s, w, h, c, size, 8, q);
    var sum := BlockSum(s, w, h, c, size, BlockX(q, w, c, size), BlockY(q, w, c, size), ChanOf(q, c), size * size);
    QuantizeFull(Average(sum, size));
  }

  // ---------------------------------------------------------- the loops

  /** `i <= maxi` with `maxi = width - size/2` (a float truncated back to int) holds just for whole blocks. */
  lemma LoopBound(b: int, n: int, size: int)
    requires size >= 1 && b >= 0 && n >= 0
    ensures size / 2 + b * size <= n - (size + 1) / 2 <==> b < n / size
  {
    assert size / 2 + (size + 1) / 2 == size;
    assert size / 2 + b * size + (size + 1) / 2 == (b + 1) * size;
    if b < n / size {
      BlockFits(b, n, size);
    } else {
      MulLe(n / size + 1, b + 1, size);
      assert n == (n / size) * size + n % size;
    }
  }

  /** Cell (row k, column m) of the block centred at pixel (i, j): the C offset and the cell number. */
  lemma CellPixel(w: int, c: int, size: int, bcol: int, brow: int, k: int, m: int)
    requires w > 0 && c > 0 && size >= 1 && 0 <= k < size && 0 <= m < size
    ensures 0 <= k * size + m < size * size
    ensures (k * size + m) % size == m && (k * size + m) / size == k
    ensures Idx(size / 2 + bcol * size, size / 2 + brow * size, 0, w, c) + ((k - size / 2) * c) * w + (m - size / 2) * c
         == Idx(bcol * size + m, brow * size + k, 0, w, c)
  {
    MulLe(k + 1, size, size);
    assert (k + 1) * size == k * size + size;
    DivModUnique(k * size + m, size, k, m);
    var dx, dy := m - size / 2, k - size / 2;
    assert (dy * c) * w == dy * w * c;
    IdxShift(size / 2 + bcol * size, size / 2 + brow * size, 0, w, c, dx, dy);
  }

  /** Cell (row k, column m) is cell k * size + m of the block sum. */
  lemma SumStep(s: seq<Byte>, w: int, h: int, c: int, size: int, bcol: int, brow: int, ch: int, k: int, m: int)
    requires WholeBlock(|s|, w, h, c, size, bcol, brow)
    requires 0 <= ch < c && 0 <= k < size && 0 <= m < size
    ensures 0 <= k * size + m < size * size
    ensures 0 <= Idx(bcol * size + m, brow * size + k, ch, w, c) < |s|
    ensures BlockSum(s, w, h, c, size, bcol, brow, ch, k * size + m + 1)
         == BlockSum(s, w, h, c, size, bcol, brow, ch, k * size + m) + s[Idx(bcol * size + m, brow * size + k, ch, w, c)]
  {
    MulLe(k + 1, size, size);
    assert (k + 1) * size == k * size + size;
    var n := k * size + m;
    DivModUnique(n, size, k, m);
    CellInside(bcol, m, w, size);
    CellInside(brow, k, h, size);
    IdxBound(bcol * size + m, brow * size + k, ch, w, h, c);
    assert BlockSum(s, w, h, c, size, bcol, brow, ch, n + 1)
        == BlockSum(s, w, h, c, size, bcol, brow, ch, n) + s[Idx(bcol * size + n % size, brow * size + n / size, ch, w, c)];
  }

  /** The three channel sums over the first n cells of block (bcol, brow). */
  ghost predicate Sums(s: seq<Byte>, w: int, h: int, c: int, size: int, bcol: int, brow: int, n: int, red: int, green: int, blue: int)
    requires WholeBlock(|s|, w, h, c, size, bcol, brow) && c >= 3 && 0 <= n <= size * size
  {
    red == BlockSum(s, w, h, c, size, bcol, brow, 0, n)
    && green == BlockSum(s, w, h, c, size, bcol, brow, 1, n)
    && blue == BlockSum(s, w, h, c, size, bcol, brow, 2, n)
  }

  /** Adding the three colour bytes of cell (row k, column m) advances the sums by one cell. */
  lemma SumsStep(s: seq<Byte>, w: int, h: int, c: int, size: int, bcol: int, brow: int, k: int, m: int, red: int, green: int, blue: int)
    requires WholeBlock(|s|, w, h, c, size, bcol, brow) && c >= 3 && 0 <= k < size && 0 <= m < size
    requires 0 <= k * size + m < size * size
    requires Sums(s, w, h, c, size, bcol, brow, k * size + m, red, green, blue)
    ensures var i := Idx(bcol * size + m, brow * size + k, 0, w, c);
      0 <= i && i + 2 < |s|
      && Sums(s, w, h, c, size, bcol, brow, k * size + m + 1, red + s[i], green + s[i + 1], blue + s[i + 2])
  {
    SumStep(s, w, h, c, size, bcol, brow, 0, k, m);
    SumStep(s, w, h, c, size, bcol, brow, 1, k, m);
    SumStep(s, w, h, c, size, bcol, brow, 2, k, m);
  }

  /** The k, m loops summing a block's three colour channels. */
  method BlockAverage(data: array<Byte>, w: int, h: int, c: int, size: int, position: int, ghost bcol: int, ghost brow: int)
    returns (red: int, green: int, blue: int)
    requires w > 0 && h > 0 && (c == 3 || c == 4) && w * h * c <= data.Length && size >= 1
    requires 0 <= bcol < w / size && 0 <= brow < h / size
    requires position == Idx(size / 2 + bcol * size, size / 2 + brow * size, 0, w, c)
    ensures (bcol + 1) * size <= w && (brow + 1) * size <= h
    ensures Sums(data[..], w, h, c, size, bcol, brow, size * size, red, green, blue)
  {
    BlockFits(bcol, w, size);
    BlockFits(brow, h, size);
    red, green, blue := 0, 0, 0;
    ghost var n := 0;
    for k := 0 to size
      invariant 0 <= n <= size * size && n == k * size
      invariant Sums(data[..], w, h, c, size, bcol, brow, n, red, green, blue)
    {
      MulLe(k + 1, size, size);
      for m := 0 to size
        invariant n == k * size + m && n <= size * size
        invariant Sums(data[..], w, h, c, size, bcol, brow, n, red, green, blue)
      {
        var thisPixel := position + ((k - size / 2) * c) * w + ((m - size / 2) * c);
        CellPixel(w, c, size, bcol, brow, k, m);
        SumsStep(data[..], w, h, c, size, bcol, brow, k, m, red, green, blue);
        red := red + data[thisPixel];
        green := green + data[thisPixel + 1];
        blue := blue + data[thisPixel + 2];
        n := n + 1;
      }
      assert n == (k + 1) * size;
    }
  }

  /** The replication loop `for (k = colorlevel; k < 8; k *= 2) tmp |= tmp >> k`, on all three channels. */
  method Spread(red: bv8, green: bv8, blue: bv8, level: bv8) returns (r: bv8, g: bv8, b: bv8)
    requires 1 <= level <= 8
    ensures r == ReplicateFrom(red, level) && g == ReplicateFrom(green, level) && b == ReplicateFrom(blue, level)
  {
    r, g, b := red, green, blue;
    var k := level;
    while k < 8
      invariant 1 <= k <= 16
      invariant ReplicateFrom(r, k) == ReplicateFrom(red, level)
      invariant ReplicateFrom(g, k) == ReplicateFrom(green, level)
      invariant ReplicateFrom(b, k) == ReplicateFrom(blue, level)
      decreases 16 - k as int
    {
      r := r | (r >> k);
      g := g | (g >> k);
      b := b | (b >> k);
      k := k * 2;
    }
  }

  /** The three writes of one cell: `newData[thisPixel + 0, 1, 2]`. */
  method FillPixel(newData: array<Byte>, w: int, h: int, c: int, size: int, level: bv8, thisPixel: int,
                   ghost s: seq<Byte>, ghost bcol: int, ghost brow: int, ghost n: int, red: Byte, green: Byte, blue: Byte)
    requires w > 0 && h > 0 && (c == 3 || c == 4) && w * h * c <= |s| && size >= 1 && 1 <= level <= 8
    requires newData.Length == |s|
    requires 0 <= bcol < w / size && 0 <= brow < h / size && 0 <= n < size * size
    requires (bcol + 1) * size <= w && (brow + 1) * size <= h
    requires thisPixel == Idx(bcol * size + n % size, brow * size + n / size, 0, w, c)
    requires IsBlockColour(s, w, h, c, size, level, bcol, brow, red, green, blue)
    requires BlocksFilled(newData[..], NintendizeStage(s, w, h, c, size, level), w, c, size, bcol, brow, n)
    modifies newData
    ensures BlocksFilled(newData[..], NintendizeStage(s, w, h, c, size, level), w, c, size, bcol, brow, n + 1)
  {
    ghost var spec := NintendizeStage(s, w, h, c, size, level);
    ghost var before: seq<Byte> := newData[..];
    StageCell(s, w, h, c, size, level, bcol, brow, n, thisPixel);
    FillCell(before, s, w, h, c, size, level, bcol, brow, n, thisPixel);
    newData[thisPixel] := red;
    newData[thisPixel + 1] := green;
    newData[thisPixel + 2] := blue;
    assert newData[..] == before[thisPixel := spec[thisPixel]][thisPixel + 1 := spec[thisPixel + 1]][thisPixel + 2 := spec[thisPixel + 2]];
  }

  /** The k, m loops writing a block's colour into its three colour bytes per cell. */
  method FillBlock(newData: array<Byte>, w: int, h: int, c: int, size: int, level: bv8, position: int,
                   ghost s: seq<Byte>, ghost bcol: int, ghost brow: int, red: Byte, green: Byte, blue: Byte)
    requires w > 0 && h > 0 && (c == 3 || c == 4) && w * h * c <= |s| && size >= 1 && 1 <= level <= 8
    requires newData.Length == |s|
    requires 0 <= bcol < w / size && 0 <= brow < h / size
    requires (bcol + 1) * size <= w && (brow + 1) * size <= h
    requires position == Idx(size / 2 + bcol * size, size / 2 + brow * size, 0, w, c)
    requires IsBlockColour(s, w, h, c, size, level, bcol, brow, red, green, blue)
    requires BlocksFilled(newData[..], NintendizeStage(s, w, h, c, size, level), w, c, size, bcol, brow, 0)
    modifies newData
    ensures BlocksFilled(newData[..], NintendizeStage(s, w, h, c, size, level), w, c, size, bcol, brow, size * size)
  {
    ghost var spec := NintendizeStage(s, w, h, c, size, level);
    ghost var n := 0;
    for k := 0 to size
      invariant 0 <= n <= size * size && n == k * size
      invariant BlocksFilled(newData[..], spec, w, c, size, bcol, brow, n)
    {
      MulLe(k + 1, size, size);
      for m := 0 to size
        invariant n == k * size + m && n <= size * size
        invariant BlocksFilled(newData[..], spec, w, c, size, bcol, brow, n)
      {
        var thisPixel := position + ((k - size / 2) * c) * w + ((m - size / 2) * c);
        CellPixel(w, c, size, bcol, brow, k, m);
        FillPixel(newData, w, h, c, size, level, thisPixel, s, bcol, brow, n, red, green, blue);
        n := n + 1;
      }
      assert n == (k + 1) * size;
    }
  }

  /** The C reduction of a channel sum: average, clip, mask, then the replication loop. */
  lemma ReducedColour(s: seq<Byte>, w: int, h: int, c: int, size: int, level: bv8, bcol: int, brow: int, ch: int, sum: int, v: bv8)
    requires WholeBlock(|s|, w, h, c, size, bcol, brow) && 1 <= level <= 8 && 0 <= ch < c
    requires sum == BlockSum(s, w, h, c, size, bcol, brow, ch, size * size)
    requires v == ReplicateFrom(Average(sum, size) & Mask(level), level)
    ensures BlockByte(s, w, h, c, size, level, bcol, brow, ch) == v as int
  {
  }

  /** The colour of block (bcol, brow): channel averages, clipped, masked and replicated. */
  method BlockColour(data: array<Byte>, w: int, h: int, c: int, size: int, level: bv8, mask: bv8,
                     position: int, ghost bcol: int, ghost brow: int) returns (red: Byte, green: Byte, blue: Byte)
    requires w > 0 && h > 0 && (c == 3 || c == 4) && w * h * c <= data.Length && size >= 1 && 1 <= level <= 8
    requires mask == Mask(level)
    requires 0 <= bcol < w / size && 0 <= brow < h / size
    requires position == Idx(size / 2 + bcol * size, size / 2 + brow * size, 0, w, c)
    ensures (bcol + 1) * size <= w && (brow + 1) * size <= h
    ensures IsBlockColour(data[..], w, h, c, size, level, bcol, brow, red, green, blue)
  {
    var tmpRed, tmpGreen, tmpBlue := BlockAverage(data, w, h, c, size, position, bcol, brow);
    var r, g, b := Spread(Average(tmpRed, size) & mask, Average(tmpGreen, size) & mask, Average(tmpBlue, size) & mask, level);
    ReducedColour(data[..], w, h, c, size, level, bcol, brow, 0, tmpRed, r);
    ReducedColour(data[..], w, h, c, size, level, bcol, brow, 1, tmpGreen, g);
    ReducedColour(data[..], w, h, c, size, level, bcol, brow, 2, tmpBlue, b);
    red, green, blue := r as int, g as int, b as int;
  }

  /** The body of the block loops: the block's colour, written into each of its cells. */
  method Pixellate(data: array<Byte>, newData: array<Byte>, w: int, h: int, c: int, size: int, level: bv8, mask: bv8,
                   position: int, ghost bcol: int, ghost brow: int)
    requires w > 0 && h > 0 && (c == 3 || c == 4) && w * h * c <= data.Length && size >= 1 && 1 <= level <= 8
    requires newData != data && newData.Length == data.Length && mask == Mask(level)
    requires 0 <= bcol < w / size && 0 <= brow < h / size
    requires position == Idx(size / 2 + bcol * size, size / 2 + brow * size, 0, w, c)
    requires BlocksFilled(newData[..], NintendizeStage(data[..], w, h, c, size, level), w, c, size, bcol, brow, 0)
    modifies newData
    ensures BlocksFilled(newData[..], NintendizeStage(data[..], w, h, c, size, level), w, c, size, bcol, brow, size * size)
  {
    var red, green, blue := BlockColour(data, w, h, c, size, level, mask, position, bcol, brow);
    FillBlock(newData, w, h, c, size, level, position, data[..], bcol, brow, red, green, blue);
  }

  /** There are no fewer than zero whole blocks, and the next block starts `size` further on. */
  lemma BlockStep(b: int, n: int, size: int)
    requires size >= 1 && n >= 0
    ensures 0 <= n / size
    ensures size / 2 + (b + 1) * size == size / 2 + b * size + size
  {
    assert (b + 1) * size == b * size + size;
  }

  /** The loops' `i * channels + j * width * channels` is the first byte of pixel (i, j). */
  lemma PositionIdx(i: int, j: int, w: int, c: int)
    ensures i * c + j * w * c == Idx(i, j, 0, w, c)
  {
    assert (i + j * w) * c == i * c + (j * w) * c;
  }

  /** The block loops over a fresh zeroed buffer: every whole block in column-major order. */
  method FillBlocks(data: array<Byte>, newData: array<Byte>, w: int, h: int, c: int, size: int, level: bv8)
    requires w > 0 && h > 0 && (c == 3 || c == 4) && w * h * c <= data.Length && size >= 1 && 1 <= level <= 8
    requires newData != data && newData.Length == data.Length
    requires forall q :: 0 <= q < newData.Length ==> newData[q] == 0
    modifies newData
    ensures newData[..] == NintendizeStage(data[..], w, h, c, size, level)
  {
    ghost var spec := NintendizeStage(data[..], w, h, c, size, level);
    FilledStart(newData[..], spec, w, c, size);
    var mask := Mask(level);
    var maxi := w - (size + 1) / 2;
    var maxj := h - (size + 1) / 2;
    var i := size / 2;
    ghost var bcol := 0;
    BlockStep(0, w, size);
    while i <= maxi
      invariant 0 <= bcol <= w / size && i == size / 2 + bcol * size
      invariant BlocksFilled(newData[..], spec, w, c, size, bcol, 0, 0)
      decreases w / size - bcol
    {
      LoopBound(bcol, w, size);
      var j := size / 2;
      ghost var brow := 0;
      BlockStep(0, h, size);
      while j <= maxj
        invariant 0 <= brow <= h / size && j == size / 2 + brow * size
        invariant BlocksFilled(newData[..], spec, w, c, size, bcol, brow, 0)
        decreases h / size - brow
      {
        LoopBound(brow, h, size);
        var position := i * c + j * w * c;
        PositionIdx(i, j, w, c);
        Pixellate(data, newData, w, h, c, size, level, mask, position, bcol, brow);
        FilledNextRow(newData[..], spec, w, c, size, bcol, brow);
        BlockStep(brow, h, size);
        j := j + size;
        brow := brow + 1;
      }
      LoopBound(brow, h, size);
      FilledNextColumn(newData[..], data[..], w, h, c, size, level, bcol, brow);
      BlockStep(bcol, w, size);
      i := i + size;
      bcol := bcol + 1;
    }
    LoopBound(bcol, w, size);
    FilledDone(newData[..], data[..], w, h, c, size, level, bcol);
  }

  /** `nintendize(width, height, data, resolution, colorlevel)`. */
  method Nintendize(width: int, height: int, data: array<Byte>, resolution: int, colorlevel: int) returns (r: Result<ImageData>)
    requires Arguments(width, height, resolution, colorlevel)
    ensures r == NintendizeSpec(width, height, data[..], resolution, colorlevel)
  {
    var level := Level(colorlevel);
    var size := BlockSize(width, height, resolution);
    var channels := data.Length / (width * height);
    if channels < 3 || channels > 4 {
      return Err(ValueError);
    }
    PixelBytesFit(data.Length, width, height);
    var newData := new Byte[data.Length](_ => 0);
    FillBlocks(data, newData, width, height, channels, size, level);
    return Ok(ImageData(width, height, newData[..]));
  }
}
