/*
 * The Windows bitmap codec of extensions/format/bmp.py: the 24-bit writer
 * and the reader's header dispatch, 24-bit rows and 4-bit palette path.
 * The file is a byte sequence; multi-byte fields are little-endian, as
 * `struct` packs them natively on the machines the editor targets.
 */
module Bmp {
  import opened Core
  import opened Errors
  import opened Raster
  import opened CCore

  /** BITMAPFILEHEADER and BITMAPINFOHEADER together. */
  const HeaderSize: nat := 54
  const FileHeaderSize: nat := 14
  const InfoHeaderSize: nat := 40
  const PixelsPerMetre: nat := 3937
  /** "BM". */
  const Marker: seq<Byte> := [66, 77]
  const Limit32: nat := 0x1_0000_0000

  // ------------------------------------------------------- little endian

  function LE16(x: nat): (r: seq<Byte>)
    requires x < 0x1_0000
    ensures |r| == 2 && U16(r, 0) == x
  {
    [x % 256, x / 256]
  }

  function LE32(x: nat): (r: seq<Byte>)
    requires x < Limit32
    ensures |r| == 4 && U32(r, 0) == x
  {
    Digits32(x);
    [x % 256, (x / 256) % 256, (x / 0x1_0000) % 256, x / 0x100_0000]
  }

  /** The four base-256 digits of a 32-bit value, lowest first, add back up to it. */
  lemma Digits32(x: nat)
    requires x < Limit32
    ensures x / 0x100_0000 < 256
    ensures x == x % 256 + 256 * ((x / 256) % 256) + 0x1_0000 * ((x / 0x1_0000) % 256) + 0x100_0000 * (x / 0x100_0000)
  {
    var q1 := x / 256;
    var q2 := q1 / 256;
    var q3 := q2 / 256;
    assert x == x % 256 + 256 * q1;
    assert q1 == q1 % 256 + 256 * q2;
    assert q2 == q2 % 256 + 256 * q3;
    assert q2 == x / 0x1_0000;
    assert q3 == x / 0x100_0000;
  }

  /** `struct.unpack('H', ...)` on two bytes. */
  function U16(s: seq<Byte>, at: nat): (r: nat)
    requires at + 2 <= |s|
    ensures r < 0x1_0000
  {
    s[at] as int + 256 * (s[at + 1] as int)
  }

  /** `struct.unpack('I', ...)` on four bytes. */
  function U32(s: seq<Byte>, at: nat): (r: nat)
    requires at + 4 <= |s|
    ensures r < Limit32
  {
    s[at] as int + 256 * (s[at + 1] as int) + 0x1_0000 * (s[at + 2] as int) + 0x100_0000 * (s[at + 3] as int)
  }

  /** A field reads back the same wherever it sits in a longer sequence. */
  lemma U32Within(a: seq<Byte>, x: nat, b: seq<Byte>)
    requires x < Limit32
    ensures U32(a + LE32(x) + b, |a|) == x
  {
    var s := a + LE32(x) + b;
    assert s[|a|..|a| + 4] == LE32(x);
  }

  lemma U16Within(a: seq<Byte>, x: nat, b: seq<Byte>)
    requires x < 0x1_0000
    ensures U16(a + LE16(x) + b, |a|) == x
  {
    var s := a + LE16(x) + b;
    assert s[|a|..|a| + 2] == LE16(x);
  }

  // ------------------------------------------------------------- slicing

  /** Python's `s[a:b]` for 0 <= a <= b: both ends are cut back to the length. */
  function Slice(s: seq<Byte>, a: nat, b: nat): (r: seq<Byte>)
    requires a <= b
    ensures b <= |s| ==> r == s[a..b]
    ensures |r| == Min(b, |s|) - Min(a, |s|)
  {
    s[Min(a, |s|)..Min(b, |s|)]
  }

  /** `file.read(n)` from position at: n bytes or what remains; a negative n reads to the end. */
  function Take(s: seq<Byte>, at: nat, n: int): (r: seq<Byte>)
    ensures n < 0 ==> r == s[Min(at, |s|)..]
    ensures n >= 0 ==> r == Slice(s, at, at + n)
  {
    if n < 0 then s[Min(at, |s|)..] else Slice(s, at, at + n)
  }

  /**
   * `reversed(...)` on a list of any element type. The bytes-only Reversed
   * of the moduleTest extension cannot reverse the rows, which are
   * sequences of byte sequences.
   */
  function Reverse<T>(s: seq<T>): (r: seq<T>)
    ensures |r| == |s|
    ensures forall i :: 0 <= i < |s| ==> r[i] == s[|s| - 1 - i]
  {
    if |s| == 0 then [] else Reverse(s[1..]) + [s[0]]
  }

  lemma ReverseReverse<T>(s: seq<T>)
    ensures Reverse(Reverse(s)) == s
  {
  }

  function Flatten(rows: seq<seq<Byte>>): (r: seq<Byte>)
  {
    if |rows| == 0 then [] else rows[0] + Flatten(rows[1..])
  }

  /** `sep.join(rows)`. */
  function Join(sep: seq<Byte>, rows: seq<seq<Byte>>): (r: seq<Byte>)
  {
    if |rows| == 0 then []
    else if |rows| == 1 then rows[0]
    else rows[0] + sep + Join(sep, rows[1..])
  }

  /**
   * `[s[i*len : (i+1)*len] for i in range(count)]`: row i is the i-th run of
   * len bytes, cut short or empty where s runs out.
   */
  function RowsOf(s: seq<Byte>, len: nat, count: nat): (rows: seq<seq<Byte>>)
    ensures |rows| == count
    ensures count > 0 ==> rows[0] == Slice(s, 0, len)
  {
    if count == 0 then [] else [Slice(s, 0, len)] + RowsOf(s[Min(len, |s|)..], len, count - 1)
  }

  /** The rows of s, taken in order, make up s when s holds count whole rows. */
  lemma {:induction false} FlattenRows(s: seq<Byte>, len: nat, count: nat)
    requires |s| == count * len
    ensures Flatten(RowsOf(s, len, count)) == s
  {
    if count > 0 {
      assert count * len == (count - 1) * len + len;
      FlattenRows(s[len..], len, count - 1);
      assert s == s[..len] + s[len..];
    }
  }

  /** Every row of a buffer of count whole rows has len bytes. */
  lemma {:induction false} RowsOfLengths(s: seq<Byte>, len: nat, count: nat)
    requires |s| == count * len
    ensures forall k :: 0 <= k < count ==> |RowsOf(s, len, count)[k]| == len
  {
    if count > 0 {
      assert count * len == (count - 1) * len + len;
      RowsOfLengths(s[len..], len, count - 1);
      var rows := RowsOf(s, len, count);
      assert rows[1..] == RowsOf(s[len..], len, count - 1);
    }
  }

  /** Rows of len bytes read from position start on, every stride bytes: what `file.read(len)` returns each time. */
  function RowsAt(file: seq<Byte>, start: nat, stride: nat, len: nat, count: nat): (rows: seq<seq<Byte>>)
    ensures |rows| == count
    ensures count > 0 ==> rows[0] == Slice(file, start, start + len)
    decreases count
  {
    if count == 0 then [] else [Slice(file, start, start + len)] + RowsAt(file, start + stride, stride, len, count - 1)
  }

  /** Every one of the count reads finds len bytes. */
  predicate RowsPresent(file: seq<Byte>, start: nat, stride: nat, len: nat, count: nat)
    decreases count
  {
    count == 0 || (start + len <= |file| && RowsPresent(file, start + stride, stride, len, count - 1))
  }

  /** Reading rows at the padded stride from a join of equal rows gives the rows back. */
  lemma {:induction false} RowsAtJoin(prefix: seq<Byte>, sep: seq<Byte>, rows: seq<seq<Byte>>, len: nat)
    requires forall k :: 0 <= k < |rows| ==> |rows[k]| == len
    ensures RowsPresent(prefix + Join(sep, rows), |prefix|, len + |sep|, len, |rows|)
    ensures RowsAt(prefix + Join(sep, rows), |prefix|, len + |sep|, len, |rows|) == rows
    decreases |rows|
  {
    var file := prefix + Join(sep, rows);
    if |rows| == 1 {
      assert file[|prefix|..|prefix| + len] == rows[0];
    } else if |rows| > 1 {
      var prefix' := prefix + rows[0] + sep;
      assert file == prefix' + Join(sep, rows[1..]);
      assert file[|prefix|..|prefix| + len] == rows[0];
      RowsAtJoin(prefix', sep, rows[1..], len);
      assert rows == [rows[0]] + rows[1..];
    }
  }
  /** Reversing rows of one length keeps every row that length. */
  lemma ReversedLengths(rows: seq<seq<Byte>>, len: nat)
    requires forall k :: 0 <= k < |rows| ==> |rows[k]| == len
    ensures forall k :: 0 <= k < |rows| ==> |Reverse(rows)[k]| == len
  {
    forall k | 0 <= k < |rows|
      ensures |Reverse(rows)[k]| == len
    {
      assert Reverse(rows)[k] == rows[|rows| - 1 - k];
    }
  }

  /** RowsAtJoin with the file, start, stride and count named as the reader names them. */
  lemma JoinedRows(file: seq<Byte>, start: nat, stride: nat, len: nat, count: nat,
                   prefix: seq<Byte>, sep: seq<Byte>, rows: seq<seq<Byte>>)
    requires forall k :: 0 <= k < |rows| ==> |rows[k]| == len
    requires file == prefix + Join(sep, rows) && start == |prefix| && stride == len + |sep| && count == |rows|
    ensures RowsPresent(file, start, stride, len, count)
    ensures RowsAt(file, start, stride, len, count) == rows
  {
    RowsAtJoin(prefix, sep, rows, len);
  }


  /** `sep.join(rows)` of count rows of len bytes has count * len bytes and count - 1 separators. */
  lemma {:induction false} JoinLength(sep: seq<Byte>, rows: seq<seq<Byte>>, len: nat)
    requires |rows| > 0 && forall k :: 0 <= k < |rows| ==> |rows[k]| == len
    ensures |Join(sep, rows)| == |rows| * len + (|rows| - 1) * |sep|
  {
    if |rows| > 1 {
      JoinLength(sep, rows[1..], len);
      var n := |rows|;
      assert n * len + (n - 1) * |sep| == len + |sep| + ((n - 1) * len + (n - 2) * |sep|);
    }
  }

  /** A buffer of width * height RGB pixels is height rows of 3 * width bytes. */
  lemma RowBytes(width: int, height: int)
    ensures width * height * 3 == height * (width * 3)
  {
  }

  lemma MulMono(a: nat, b: nat, c: nat)
    requires a <= b
    ensures a * c <= b * c
  {
    assert b * c - a * c == (b - a) * c;
  }

  // --------------------------------------------------------------- write

  /** `(-width * 3) % 4`: the zero bytes that bring a row to a multiple of four. */
  function Padding(width: int): (r: nat)
    ensures r < 4 && (width * 3 + r) % 4 == 0
  {
    var q := (-width * 3) / 4;
    assert width * 3 + (-width * 3) % 4 == -q * 4;
    DivModUnique(width * 3 + (-width * 3) % 4, 4, -q, 0);
    (-width * 3) % 4
  }

  function Zeros(n: nat): (r: seq<Byte>)
    ensures |r| == n && forall i :: 0 <= i < n ==> r[i] == 0
  {
    seq(n, _ => 0)
  }

  /** The pixel bytes `write` emits for an already swapped buffer: rows bottom-up, padding between them only. */
  function PixelArray(width: nat, height: nat, swapped: seq<Byte>): seq<Byte>
  {
    Join(Zeros(Padding(width)), Reverse(RowsOf(swapped, width * 3, height)))
  }

  /** BITMAPFILEHEADER as `write` packs it: "BM", the file size, two zero words, the offset 54. */
  function FileHeader(imageSize: nat): (r: seq<Byte>)
    requires imageSize + HeaderSize < Limit32
    ensures |r| == FileHeaderSize && r[..2] == Marker
    ensures U32(r, 2) == imageSize + HeaderSize && U32(r, 10) == HeaderSize
  {
    var r := Marker + LE32(imageSize + HeaderSize) + LE16(0) + LE16(0) + LE32(HeaderSize);
    U32Within(Marker, imageSize + HeaderSize, LE16(0) + LE16(0) + LE32(HeaderSize));
    assert r == Marker + LE32(imageSize + HeaderSize) + (LE16(0) + LE16(0) + LE32(HeaderSize));
    U32Within(Marker + LE32(imageSize + HeaderSize) + LE16(0) + LE16(0), HeaderSize, []);
    assert r == Marker + LE32(imageSize + HeaderSize) + LE16(0) + LE16(0) + LE32(HeaderSize) + [];
    r
  }

  /** BITMAPINFOHEADER as `write` packs it (Windows V3, 40 bytes). */
  function InfoHeaderBytes(width: nat, height: nat, imageSize: nat): (r: seq<Byte>)
    requires width < Limit32 && height < Limit32 && imageSize < Limit32
    ensures |r| == InfoHeaderSize
  {
    LE32(InfoHeaderSize) + LE32(width) + LE32(height) + LE16(1) + LE16(24)
    + LE32(0) + LE32(imageSize) + LE32(PixelsPerMetre) + LE32(PixelsPerMetre) + LE32(0) + LE32(0)
  }

  /** The fields of the info header read back as written: size 40, the sides, 1 plane, 24 bits, no compression, the image size, 3937 pixels per metre both ways, no palette. */
  lemma InfoHeaderFields(width: nat, height: nat, imageSize: nat)
    requires width < Limit32 && height < Limit32 && imageSize < Limit32
    ensures var r := InfoHeaderBytes(width, height, imageSize);
      U32(r, 0) == InfoHeaderSize && U32(r, 4) == width && U32(r, 8) == height
      && U16(r, 12) == 1 && U16(r, 14) == 24 && U32(r, 16) == 0 && U32(r, 20) == imageSize
      && U32(r, 24) == PixelsPerMetre && U32(r, 28) == PixelsPerMetre && U32(r, 32) == 0 && U32(r, 36) == 0
  {
    var r := InfoHeaderBytes(width, height, imageSize);
    var a0 := LE32(InfoHeaderSize);
    var a1 := a0 + LE32(width);
    var a2 := a1 + LE32(height);
    var a3 := a2 + LE16(1);
    var a4 := a3 + LE16(24);
    var a5 := a4 + LE32(0);
    var a6 := a5 + LE32(imageSize);
    var a7 := a6 + LE32(PixelsPerMetre);
    var a8 := a7 + LE32(PixelsPerMetre);
    var a9 := a8 + LE32(0);
    assert r == a9 + LE32(0);
    U32Within([], InfoHeaderSize, r[4..]);
    assert r == [] + LE32(InfoHeaderSize) + r[4..];
    U32Within(a0, width, r[8..]);
    assert r == a0 + LE32(width) + r[8..];
    U32Within(a1, height, r[12..]);
    assert r == a1 + LE32(height) + r[12..];
    U16Within(a2, 1, r[14..]);
    assert r == a2 + LE16(1) + r[14..];
    U16Within(a3, 24, r[16..]);
    assert r == a3 + LE16(24) + r[16..];
    U32Within(a4, 0, r[20..]);
    assert r == a4 + LE32(0) + r[20..];
    U32Within(a5, imageSize, r[24..]);
    assert r == a5 + LE32(imageSize) + r[24..];
    U32Within(a6, PixelsPerMetre, r[28..]);
    assert r == a6 + LE32(PixelsPerMetre) + r[28..];
    U32Within(a7, PixelsPerMetre, r[32..]);
    assert r == a7 + LE32(PixelsPerMetre) + r[32..];
    U32Within(a8, 0, r[36..]);
    assert r == a8 + LE32(0) + r[36..];
    U32Within(a9, 0, []);
    assert r == a9 + LE32(0) + [];
  }

  /** Reading a field inside a prefix is unaffected by what follows it. */
  lemma U32Prefix(a: seq<Byte>, b: seq<Byte>, at: nat)
    requires at + 4 <= |a|
    ensures U32(a + b, at) == U32(a, at)
  {
  }

  lemma U16Prefix(a: seq<Byte>, b: seq<Byte>, at: nat)
    requires at + 2 <= |a|
    ensures U16(a + b, at) == U16(a, at)
  {
  }

  /**
   * `write(filename, width, height, data)` at 24 bits: the bytes of the file.
   * swapChannels refuses a buffer that is not 3 or 4 channels; `struct.pack`
   * refuses a field that does not fit an unsigned 32-bit word.
   */
  function Write(width: int, height: int, data: seq<Byte>): (r: Result<seq<Byte>>)
    requires width > 0 && height > 0
    ensures SwapChannelsSpec(width, height, data, 0, 2).Err? ==> r == Err(SwapChannelsSpec(width, height, data, 0, 2).error)
    ensures r.Err? ==> r.error == StructError || SwapChannelsSpec(width, height, data, 0, 2).Err?
    ensures r.Ok? ==> |r.value| >= HeaderSize && r.value[..2] == Marker
    ensures r.Ok? ==> U32(r.value, 2) == |r.value| && U32(r.value, 10) == HeaderSize
  {
    match SwapChannelsSpec(width, height, data, 0, 2)
    case Err(e) => Err(e)
    case Ok(swapped) =>
      var body := PixelArray(width, height, swapped.data);
      if width >= Limit32 || height >= Limit32 || |body| + HeaderSize >= Limit32 then Err(StructError)
      else
        var info := InfoHeaderBytes(width, height, |body|);
        var file := FileHeader(|body|) + (info + body);
        U32Prefix(FileHeader(|body|), info + body, 2);
        U32Prefix(FileHeader(|body|), info + body, 10);
        assert file[..2] == FileHeader(|body|)[..2];
        Ok(file)
  }

  /** The file `write` produces splits into the file header, the info header and the pixel array. */
  predicate WrittenAs(file: seq<Byte>, width: nat, height: nat, swapped: seq<Byte>)
    requires width < Limit32 && height < Limit32
  {
    var body := PixelArray(width, height, swapped);
    |body| + HeaderSize < Limit32
    && file == FileHeader(|body|) + (InfoHeaderBytes(width, height, |body|) + body)
  }

  lemma WriteShape(width: int, height: int, data: seq<Byte>)
    requires width > 0 && height > 0 && Write(width, height, data).Ok?
    ensures width < Limit32 && height < Limit32
    ensures SwapChannelsSpec(width, height, data, 0, 2).Ok?
    ensures WrittenAs(Write(width, height, data).value, width, height, SwapChannelsSpec(width, height, data, 0, 2).value.data)
  {
  }

  /**
   * For an RGB buffer the header carries the sizes and fixed fields listed in
   * the info header, and the pixel array has h rows of 3w bytes with padding
   * between rows only: h*w*3 + (h-1)*pad bytes.
   */
  lemma WriteHeader(width: int, height: int, data: seq<Byte>)
    requires width > 0 && height > 0 && |data| == width * height * 3
    requires Write(width, height, data).Ok?
    ensures var file := Write(width, height, data).value;
      |file| == HeaderSize + height * (width * 3) + (height - 1) * Padding(width)
      && U32(file, 2) == |file| && U32(file, 10) == HeaderSize
      && U32(file, 14) == InfoHeaderSize && U32(file, 18) == width && U32(file, 22) == height
      && U16(file, 26) == 1 && U16(file, 28) == 24 && U32(file, 30) == 0 && U32(file, 34) == |file| - HeaderSize
      && U32(file, 38) == PixelsPerMetre && U32(file, 42) == PixelsPerMetre && U32(file, 46) == 0 && U32(file, 50) == 0
  {
    WriteShape(width, height, data);
    RowBytes(width, height);
    WrittenFields(Write(width, height, data).value, width, height, SwapChannelsSpec(width, height, data, 0, 2).value.data);
  }

  lemma WrittenFields(file: seq<Byte>, width: nat, height: nat, swapped: seq<Byte>)
    requires 0 < width < Limit32 && 0 < height < Limit32 && |swapped| == height * (width * 3)
    requires WrittenAs(file, width, height, swapped)
    ensures |file| == HeaderSize + height * (width * 3) + (height - 1) * Padding(width)
    ensures U32(file, 2) == |file| && U32(file, 10) == HeaderSize
    ensures U32(file, 14) == InfoHeaderSize && U32(file, 18) == width && U32(file, 22) == height
    ensures U16(file, 26) == 1 && U16(file, 28) == 24 && U32(file, 30) == 0 && U32(file, 34) == |file| - HeaderSize
    ensures U32(file, 38) == PixelsPerMetre && U32(file, 42) == PixelsPerMetre && U32(file, 46) == 0 && U32(file, 50) == 0
  {
    WrittenLength(file, width, height, swapped);
    WrittenInfo(file, width, height, swapped);
  }

  /** A written file is the two headers and the rows with a padding between each two. */
  lemma WrittenLength(file: seq<Byte>, width: nat, height: nat, swapped: seq<Byte>)
    requires 0 < width < Limit32 && 0 < height < Limit32 && |swapped| == height * (width * 3)
    requires WrittenAs(file, width, height, swapped)
    ensures |file| == HeaderSize + height * (width * 3) + (height - 1) * Padding(width)
  {
    RowsOfLengths(swapped, width * 3, height);
    ReversedLengths(RowsOf(swapped, width * 3, height), width * 3);
    JoinLength(Zeros(Padding(width)), Reverse(RowsOf(swapped, width * 3, height)), width * 3);
  }

  /** The header fields of a written file, read back at their offsets. */
  lemma WrittenInfo(file: seq<Byte>, width: nat, height: nat, swapped: seq<Byte>)
    requires 0 < width < Limit32 && 0 < height < Limit32
    requires WrittenAs(file, width, height, swapped)
    ensures U32(file, 2) == |file| && U32(file, 10) == HeaderSize
    ensures U32(file, 14) == InfoHeaderSize && U32(file, 18) == width && U32(file, 22) == height
    ensures U16(file, 26) == 1 && U16(file, 28) == 24 && U32(file, 30) == 0 && U32(file, 34) == |file| - HeaderSize
    ensures U32(file, 38) == PixelsPerMetre && U32(file, 42) == PixelsPerMetre && U32(file, 46) == 0 && U32(file, 50) == 0
  {
    var body := PixelArray(width, height, swapped);
    var head := FileHeader(|body|);
    var info := InfoHeaderBytes(width, height, |body|);
    InfoHeaderFields(width, height, |body|);
    InfoFieldsInFile(head, info, body);
    U32Prefix(head, info + body, 2);
    U32Prefix(head, info + body, 10);
  }

  /** Info-header fields keep their values once the file header is put before them and the pixel array after. */
  lemma InfoFieldsInFile(head: seq<Byte>, info: seq<Byte>, body: seq<Byte>)
    requires |head| == FileHeaderSize && |info| == InfoHeaderSize
    ensures forall at :: 0 <= at <= InfoHeaderSize - 4 ==> U32(head + (info + body), FileHeaderSize + at) == U32(info, at)
    ensures forall at :: 0 <= at <= InfoHeaderSize - 2 ==> U16(head + (info + body), FileHeaderSize + at) == U16(info, at)
  {
    var file := head + (info + body);
    assert forall k :: 0 <= k < InfoHeaderSize ==> file[FileHeaderSize + k] == info[k];
  }

  lemma WrittenRows(file: seq<Byte>, width: nat, height: nat, swapped: seq<Byte>, len: nat, stride: nat)
    requires 0 < width < Limit32 && 0 < height < Limit32 && |swapped| == height * len
    requires len == width * 3 && stride == len + Padding(width)
    requires WrittenAs(file, width, height, swapped)
    ensures RowsPresent(file, HeaderSize, stride, len, height)
    ensures RowsAt(file, HeaderSize, stride, len, height) == Reverse(RowsOf(swapped, len, height))
  {
    var rows := Reverse(RowsOf(swapped, len, height));
    var body := PixelArray(width, height, swapped);
    var head := FileHeader(|body|) + InfoHeaderBytes(width, height, |body|);
    assert |head| == HeaderSize;
    assert file == head + Join(Zeros(Padding(width)), rows);
    RowsOfLengths(swapped, len, height);
    ReversedLengths(RowsOf(swapped, len, height), len);
    JoinedRows(file, HeaderSize, stride, len, height, head, Zeros(Padding(width)), rows);
  }

  // ---------------------------------------------------------------- read

  /**
   * The 4-bit palette in the order the dict literal lists it (keys 0 to 7,
   * then 248 to 255). Key 253 repeats the colour of key 254, cyan.
   */
  const PaletteAsWritten: seq<seq<Byte>> := [
    [0, 0, 0], [128, 0, 0], [0, 128, 0], [128, 128, 0],
    [0, 0, 128], [128, 0, 128], [0, 128, 128], [192, 192, 192],
    [128, 128, 128], [255, 0, 0], [0, 255, 0], [255, 255, 0],
    [0, 0, 255], [0, 255, 255], [0, 255, 255], [255, 255, 255]]

  /** The palette with key 253 as the Windows reserved colour it stands for, magenta. */
  const Palette: seq<seq<Byte>> := PaletteAsWritten[13 := [255, 0, 255]]

  /** Sixteen colours of three bytes each. */
  predicate PaletteShape(palette: seq<seq<Byte>>)
  {
    |palette| == 16 && forall k :: 0 <= k < 16 ==> |palette[k]| == 3
  }

  /** As written, two of the sixteen indices name the same colour, so 4-bit images lose magenta. */
  lemma PaletteRepeats()
    ensures PaletteShape(PaletteAsWritten)
    ensures PaletteAsWritten[13] == PaletteAsWritten[14]
    ensures forall k :: 0 <= k < 16 ==> PaletteAsWritten[k] != [255, 0, 255]
  {
  }

  /** The corrected palette gives sixteen different colours. */
  lemma PaletteDistinct()
    ensures PaletteShape(Palette)
    ensures forall i, j :: 0 <= i < j < 16 ==> Palette[i] != Palette[j]
  {
  }

  /** `palette[pixels >> 4] + palette[pixels & 0xf]` for every byte, in order: high nibble first. */
  function Nibbles(data: seq<Byte>, palette: seq<seq<Byte>>): (r: seq<Byte>)
    requires PaletteShape(palette)
    ensures |r| == 6 * |data|
  {
    if |data| == 0 then []
    else
      var last := data[|data| - 1];
      Nibbles(data[..|data| - 1], palette) + palette[last / 16] + palette[last % 16]
  }

  /** Byte i becomes the colours of its high then its low nibble, at offset 6 * i. */
  lemma {:induction false} NibblesAt(data: seq<Byte>, palette: seq<seq<Byte>>, i: nat)
    requires PaletteShape(palette) && i < |data|
    ensures Nibbles(data, palette)[6 * i..6 * i + 3] == palette[data[i] / 16]
    ensures Nibbles(data, palette)[6 * i + 3..6 * i + 6] == palette[data[i] % 16]
  {
    var n := |data| - 1;
    var front := data[..n];
    var r := Nibbles(data, palette);
    var f := Nibbles(front, palette);
    assert r == f + palette[data[n] / 16] + palette[data[n] % 16];
    assert |f| == 6 * n;
    if i < n {
      NibblesAt(front, palette, i);
      assert front[i] == data[i];
      assert r[6 * i..6 * i + 3] == f[6 * i..6 * i + 3];
      assert r[6 * i + 3..6 * i + 6] == f[6 * i + 3..6 * i + 6];
    } else {
      assert r[6 * n..6 * n + 3] == palette[data[n] / 16];
      assert r[6 * n + 3..6 * n + 6] == palette[data[n] % 16];
    }
  }

  /** The loop of the 4-bit path: two palette entries per byte. */
  method ExpandNibbles(data: seq<Byte>, palette: seq<seq<Byte>>) returns (translated: seq<Byte>)
    requires PaletteShape(palette)
    ensures translated == Nibbles(data, palette)
  {
    translated := [];
    for i := 0 to |data|
      invariant translated == Nibbles(data[..i], palette)
    {
      var pixels := data[i];
      assert data[..i + 1][..i] == data[..i];
      translated := translated + palette[pixels / 16] + palette[pixels % 16];
    }
    assert data[..|data|] == data;
  }

  /**
   * The 24-bit rows: `read(width * 3)` then a seek over the padding, each row
   * put in front of those before it. When a read comes back short the source
   * loops for ever; the result is then ImageReadError.
   */
  function Rows24(file: seq<Byte>, start: nat, width: nat, height: nat): (r: Result<seq<Byte>>)
    ensures r.Ok? && width > 0 ==> |r.value| == height * (width * 3)
  {
    var len := width * 3;
    var stride := len + Padding(width);
    if width == 0 || height == 0 then Ok([])
    else if RowsPresent(file, start, stride, len, height) then
      RowsPresentLengths(file, start, stride, len, height);
      FlattenLength(Reverse(RowsAt(file, start, stride, len, height)), len);
      Ok(Flatten(Reverse(RowsAt(file, start, stride, len, height))))
    else Err(ImageReadError)
  }

  /** Rows24 when every row is present: the rows read, last first, joined. */
  lemma Rows24Read(file: seq<Byte>, start: nat, width: nat, height: nat, len: nat, stride: nat, rows: seq<seq<Byte>>)
    requires width > 0 && height > 0 && len == width * 3 && stride == len + Padding(width)
    requires RowsPresent(file, start, stride, len, height) && RowsAt(file, start, stride, len, height) == rows
    ensures Rows24(file, start, width, height) == Ok(Flatten(Reverse(rows)))
  {
  }

  /** Rows24 of an empty image, and the loop's data once it has stopped on one. */
  lemma Rows24Empty(file: seq<Byte>, start: nat, width: nat, height: nat, done: seq<seq<Byte>>, len: nat, imageData: seq<Byte>)
    requires width == 0 || height == 0
    requires len == width * 3 && |done| <= height && |imageData| == |done| * len
    ensures imageData == [] && Rows24(file, start, width, height) == Ok([])
  {
    if width == 0 {
      assert len == 0;
    }
  }

  /** Rows24 when a row is cut short by the end of the file. */
  lemma Rows24Missing(file: seq<Byte>, start: nat, width: nat, height: nat, len: nat, stride: nat)
    requires width > 0 && height > 0 && len == width * 3 && stride == len + Padding(width)
    requires !RowsPresent(file, start, stride, len, height)
    ensures Rows24(file, start, width, height) == Err(ImageReadError)
  {
  }

  /** When every read finds its bytes, every row read has len bytes. */
  lemma {:induction false} RowsPresentLengths(file: seq<Byte>, start: nat, stride: nat, len: nat, count: nat)
    requires RowsPresent(file, start, stride, len, count)
    ensures forall k :: 0 <= k < count ==> |RowsAt(file, start, stride, len, count)[k]| == len
    decreases count
  {
    if count > 0 {
      RowsPresentLengths(file, start + stride, stride, len, count - 1);
      assert RowsAt(file, start, stride, len, count)[1..] == RowsAt(file, start + stride, stride, len, count - 1);
    }
  }

  /** Rows of len bytes flatten to |rows| * len bytes. */
  lemma {:induction false} FlattenLength(rows: seq<seq<Byte>>, len: nat)
    requires forall k :: 0 <= k < |rows| ==> |rows[k]| == len
    ensures |Flatten(rows)| == |rows| * len
  {
    if |rows| > 0 {
      FlattenLength(rows[1..], len);
      assert |rows| * len == (|rows| - 1) * len + len;
    }
  }

  /** Flattening after appending a row appends its bytes. */
  lemma {:induction false} FlattenAppend(rows: seq<seq<Byte>>, last: seq<Byte>)
    ensures Flatten(rows + [last]) == Flatten(rows) + last
  {
    if |rows| > 0 {
      assert (rows + [last])[1..] == rows[1..] + [last];
      FlattenAppend(rows[1..], last);
    }
  }

  lemma ReverseAppend<T>(rows: seq<T>, last: T)
    ensures Reverse(rows + [last]) == [last] + Reverse(rows)
  {
  }

  /**
   * The position of the row loop: the rows done so far followed by the rows
   * still to read from pos are all the rows from start, and the later reads
   * all succeed exactly when all of them do.
   */
  predicate LoopAt(file: seq<Byte>, start: nat, stride: nat, len: nat, height: nat, pos: nat, done: seq<seq<Byte>>)
  {
    |done| <= height
    && done + RowsAt(file, pos, stride, len, height - |done|) == RowsAt(file, start, stride, len, height)
    && (RowsPresent(file, start, stride, len, height) <==> RowsPresent(file, pos, stride, len, height - |done|))
  }

  /** One pass of the row loop: the row read at pos is the next one, and the loop moves one stride on. */
  lemma LoopStep(file: seq<Byte>, start: nat, stride: nat, len: nat, height: nat, pos: nat, done: seq<seq<Byte>>,
                 nextPos: nat, nextDone: seq<seq<Byte>>)
    requires LoopAt(file, start, stride, len, height, pos, done) && |done| < height
    requires nextPos == pos + stride && nextDone == done + [Slice(file, pos, pos + len)]
    ensures pos + len <= |file| ==> LoopAt(file, start, stride, len, height, nextPos, nextDone)
    ensures RowsPresent(file, start, stride, len, height) ==> pos + len <= |file|
  {
    var left := height - |done|;
    var row := Slice(file, pos, pos + len);
    assert RowsAt(file, pos, stride, len, left) == [row] + RowsAt(file, nextPos, stride, len, left - 1);
    assert done + ([row] + RowsAt(file, nextPos, stride, len, left - 1))
      == nextDone + RowsAt(file, nextPos, stride, len, left - 1);
    assert height - |nextDone| == left - 1;
  }

  /** Fewer bytes than height rows of len means fewer rows than height. */
  lemma RowsShort(rows: nat, height: nat, len: nat)
    requires rows * len < height * len
    ensures rows < height
  {
    if rows >= height {
      MulMono(height, rows, len);
    }
  }

  /** At least height rows of len > 0 bytes, and no more than height rows, is height rows. */
  lemma RowsFull(rows: nat, height: nat, len: nat)
    requires rows <= height && len > 0 && rows * len >= height * len
    ensures rows == height
  {
    if rows < height {
      MulMono(rows + 1, height, len);
    }
  }

  lemma MulSucc(a: nat, b: nat)
    ensures (a + 1) * b == a * b + b
  {
  }

  /** At the end of the loop every row is done. */
  lemma LoopEnd(file: seq<Byte>, start: nat, stride: nat, len: nat, height: nat, pos: nat, done: seq<seq<Byte>>)
    requires LoopAt(file, start, stride, len, height, pos, done) && |done| == height
    ensures done == RowsAt(file, start, stride, len, height)
    ensures RowsPresent(file, start, stride, len, height)
  {
    assert done + [] == done;
  }

  /** Putting a row in front of the bytes read so far is flattening the rows done, last first. */
  lemma PrependRow(done: seq<seq<Byte>>, data: seq<Byte>)
    ensures Flatten(Reverse(done + [data])) == data + Flatten(Reverse(done))
  {
    ReverseAppend(done, data);
    assert ([data] + Reverse(done))[1..] == Reverse(done);
  }

  /** A full row read at pos extends the loop's state by one row. */
  lemma LoopAdvance(file: seq<Byte>, start: nat, stride: nat, len: nat, height: nat, pos: nat, done: seq<seq<Byte>>, imageData: seq<Byte>,
                     row: seq<Byte>, nextPos: nat, nextDone: seq<seq<Byte>>, nextData: seq<Byte>)
    requires LoopAt(file, start, stride, len, height, pos, done) && |done| < height
    requires len > 0 && row == Slice(file, pos, pos + len) && |row| == len
    requires imageData == Flatten(Reverse(done)) && |imageData| == |done| * len
    requires nextPos == pos + stride && nextDone == done + [row] && nextData == row + imageData
    ensures LoopAt(file, start, stride, len, height, nextPos, nextDone)
    ensures nextData == Flatten(Reverse(nextDone))
    ensures |nextData| == |nextDone| * len
  {
    LoopStep(file, start, stride, len, height, pos, done, nextPos, nextDone);
    PrependRow(done, row);
    MulSucc(|done|, len);
  }

  /** The `while len(imageData) < eof` loop of the 24-bit path over the file's bytes from start. */
  method ReadRows24(file: seq<Byte>, start: nat, width: nat, height: nat) returns (r: Result<seq<Byte>>)
    ensures r == Rows24(file, start, width, height)
  {
    var len: nat := width * 3;
    var padding := Padding(width);
    var stride := len + padding;
    var eof := width * height * 3;
    RowBytes(width, height);
    var imageData: seq<Byte> := [];
    var pos: nat := start;
    ghost var done: seq<seq<Byte>> := [];
    while |imageData| < eof
      invariant LoopAt(file, start, stride, len, height, pos, done)
      invariant |imageData| == |done| * len
      invariant imageData == Flatten(Reverse(done))
      decreases height - |done|
    {
      RowsShort(|done|, height, len);
      var data := Slice(file, pos, pos + len);
      if |data| < len {
        LoopStep(file, start, stride, len, height, pos, done, pos + stride, done + [data]);
        Rows24Missing(file, start, width, height, len, stride);
        return Err(ImageReadError);
      }
      // the row's len bytes, then the padding bytes that are read and dropped
      var nextPos := pos + stride;
      var nextData := data + imageData;
      ghost var nextDone := done + [data];
      LoopAdvance(file, start, stride, len, height, pos, done, imageData, data, nextPos, nextDone, nextData);
      pos, imageData, done := nextPos, nextData, nextDone;
    }
    if width > 0 && height > 0 {
      RowsFull(|done|, height, len);
      LoopEnd(file, start, stride, len, height, pos, done);
      Rows24Read(file, start, width, height, len, stride, done);
    } else {
      Rows24Empty(file, start, width, height, done, len, imageData);
    }
    return Ok(imageData);
  }

  /** The fields of the info header that the reader uses. */
  datatype InfoHeader = InfoHeader(width: nat, height: nat, planes: nat, bpp: nat, compression: nat)

  /**
   * The header-size dispatch as written: 24 is taken for the OS/2 size, and
   * that branch leaves `compression` unbound, so the test of it raises
   * NameError; any other size but 40 raises ImageFormatError, which the
   * module never imports, so that too is NameError. `struct.unpack` raises
   * struct.error on a slice that is too short.
   */
  function ParseInfoAsWritten(info: seq<Byte>): (r: Result<InfoHeader>)
    ensures |info| >= 4 && U32(info, 0) != 24 && U32(info, 0) != 40 ==> r == Err(NameError)
    ensures |info| >= 12 && U32(info, 0) == 24 ==> r == Err(NameError)
    ensures r.Ok? <==> |info| >= 20 && U32(info, 0) == 40
  {
    if |info| < 4 then Err(StructError)
    else
      var size := U32(info, 0);
      if size == 24 then (if |info| < 12 then Err(StructError) else Err(NameError))
      else if size == 40 then
        (if |info| < 20 then Err(StructError)
         else Ok(InfoHeader(U32(info, 4), U32(info, 8), U16(info, 12), U16(info, 14), U32(info, 16))))
      else Err(NameError)
  }

  /** The dispatch as intended: the 12-byte OS/2 header (16-bit sides, no compression field), the 40-byte V3 header, else ImageFormatError. */
  function ParseInfo(info: seq<Byte>): (r: Result<InfoHeader>)
    ensures |info| >= 4 && U32(info, 0) != 12 && U32(info, 0) != 40 ==> r == Err(ImageFormatError)
    ensures r.Ok? <==> (|info| >= 20 && U32(info, 0) == 40) || (|info| >= 12 && U32(info, 0) == 12)
    ensures r.Ok? && U32(info, 0) == 12 ==> r.value.compression == 0 && r.value.width < 0x1_0000 && r.value.height < 0x1_0000
    ensures |info| >= 20 && U32(info, 0) == 40 ==> r == ParseInfoAsWritten(info)
  {
    if |info| < 4 then Err(StructError)
    else
      var size := U32(info, 0);
      if size == 12 then
        (if |info| < 12 then Err(StructError)
         else Ok(InfoHeader(U16(info, 4), U16(info, 6), U16(info, 8), U16(info, 10), 0)))
      else if size == 40 then
        (if |info| < 20 then Err(StructError)
         else Ok(InfoHeader(U32(info, 4), U32(info, 8), U16(info, 12), U16(info, 14), U32(info, 16))))
      else Err(ImageFormatError)
  }

  /**
   * What the reader makes of the pixel bytes from position pos once the info
   * header is parsed: the 4-bit path expands nibbles through the palette and
   * puts the rows of 3 * width bytes bottom-up without a channel swap; the
   * 24-bit path reads the padded rows and then swaps red and blue. A zero
   * side reaches swapChannels as a division by zero.
   */
  function Pixels(file: seq<Byte>, pos: nat, info: InfoHeader, palette: seq<seq<Byte>>,
                  compressionError: Error, depthError: Error): (r: Result<ImageData>)
    requires PaletteShape(palette)
    ensures r.Ok? ==> r.value.width == info.width && r.value.height == info.height
    ensures info.compression != 0 ==> r == Err(compressionError)
    ensures info.compression == 0 && info.bpp != 4 && info.bpp != 24 ==> r == Err(depthError)
  {
    if info.compression != 0 then Err(compressionError)
    else if info.bpp == 4 then
      var translated := Nibbles(file[Min(pos, |file|)..], palette);
      Ok(ImageData(info.width, info.height, Flatten(Reverse(RowsOf(translated, info.width * 3, info.height)))))
    else if info.bpp == 24 then
      match Rows24(file, pos, info.width, info.height)
      case Err(e) => Err(e)
      case Ok(rows) =>
        if info.width == 0 || info.height == 0 then Err(ZeroDivisionError)
        else SwapChannelsSpec(info.width, info.height, rows, 0, 2)
    else Err(depthError)
  }

  /**
   * `read(filename)` as written, on the file's bytes: a file not starting
   * with "BM" calls the undefined `log` (NameError); a short file header
   * fails to unpack; the info header is the `dataAddress - 14` bytes after
   * it (the whole rest of the file when that is negative). Unsupported
   * compression and depth raise NameError: ImageReadError is not imported
   * and `depth` is unbound.
   */
  function DecodeAsWritten(file: seq<Byte>): (r: Result<ImageData>)
    ensures |file| < 2 || file[..2] != Marker ==> r == Err(NameError)
  {
    var fileHeader := Take(file, 0, FileHeaderSize);
    if |fileHeader| < 2 || fileHeader[..2] != Marker then Err(NameError)
    else if |fileHeader| != FileHeaderSize then Err(StructError)
    else
      var info := Take(file, FileHeaderSize, U32(fileHeader, 10) - FileHeaderSize);
      match ParseInfoAsWritten(info)
      case Err(e) => Err(e)
      case Ok(h) =>
        PaletteRepeats();
        Pixels(file, FileHeaderSize + |info|, h, PaletteAsWritten, NameError, NameError)
  }

  /**
   * `read(filename)` as intended: a wrong marker is only a warning, the OS/2
   * header is the 12-byte one, and the failures raise the editor's own
   * ImageFormatError and ImageReadError.
   */
  function Decode(file: seq<Byte>): (r: Result<ImageData>)
    ensures |file| < FileHeaderSize ==> r == Err(StructError)
  {
    var fileHeader := Take(file, 0, FileHeaderSize);
    if |fileHeader| != FileHeaderSize then Err(StructError)
    else
      var info := Take(file, FileHeaderSize, U32(fileHeader, 10) - FileHeaderSize);
      match ParseInfo(info)
      case Err(e) => Err(e)
      case Ok(h) =>
        PaletteDistinct();
        Pixels(file, FileHeaderSize + |info|, h, Palette, ImageReadError, ImageFormatError)
  }

  /**
   * `read(filename)` step by step over the file's bytes: the headers, then
   * the nibble loop of the 4-bit path or the row loop of the 24-bit path.
   */
  method Read(file: seq<Byte>) returns (r: Result<ImageData>)
    ensures r == Decode(file)
  {
    var fileHeader := Take(file, 0, FileHeaderSize);
    if |fileHeader| != FileHeaderSize {
      return Err(StructError);
    }
    var info := Take(file, FileHeaderSize, U32(fileHeader, 10) - FileHeaderSize);
    var parsed := ParseInfo(info);
    if parsed.Err? {
      return Err(parsed.error);
    }
    var header := parsed.value;
    var pos := FileHeaderSize + |info|;
    PaletteDistinct();
    if header.compression != 0 {
      return Err(ImageReadError);
    }
    if header.bpp == 4 {
      var translated := ExpandNibbles(file[Min(pos, |file|)..], Palette);
      var rows := RowsOf(translated, header.width * 3, header.height);
      return Ok(ImageData(header.width, header.height, Flatten(Reverse(rows))));
    } else if header.bpp == 24 {
      var imageData := ReadRows24(file, pos, header.width, header.height);
      if imageData.Err? {
        return Err(imageData.error);
      }
      if header.width == 0 || header.height == 0 {
        return Err(ZeroDivisionError);
      }
      return SwapChannelsSpec(header.width, header.height, imageData.value, 0, 2);
    }
    return Err(ImageFormatError);
  }

  /** The headers of a written file parse back to the width and height written, one plane, 24 bits, no compression. */
  lemma WrittenParses(file: seq<Byte>, width: nat, height: nat, swapped: seq<Byte>)
    requires 0 < width < Limit32 && 0 < height < Limit32
    requires WrittenAs(file, width, height, swapped)
    ensures |file| >= HeaderSize && U32(file[..FileHeaderSize], 10) == HeaderSize
    ensures U32(file[FileHeaderSize..HeaderSize], 0) == InfoHeaderSize
    ensures ParseInfo(file[FileHeaderSize..HeaderSize]) == Ok(InfoHeader(width, height, 1, 24, 0))
  {
    var body := PixelArray(width, height, swapped);
    var head := FileHeader(|body|);
    var info := InfoHeaderBytes(width, height, |body|);
    assert file[..FileHeaderSize] == head;
    assert file[FileHeaderSize..HeaderSize] == info;
    InfoHeaderFields(width, height, |body|);
  }

  /** The padded rows of a written file read back, bottom-up, as the swapped buffer. */
  lemma WrittenPixels(file: seq<Byte>, width: nat, height: nat, swapped: seq<Byte>)
    requires 0 < width < Limit32 && 0 < height < Limit32 && |swapped| == height * (width * 3)
    requires WrittenAs(file, width, height, swapped)
    ensures Rows24(file, HeaderSize, width, height) == Ok(swapped)
  {
    var len := width * 3;
    var stride := len + Padding(width);
    var rows := RowsOf(swapped, len, height);
    WrittenRows(file, width, height, swapped, len, stride);
    Rows24Read(file, HeaderSize, width, height, len, stride, Reverse(rows));
    ReverseReverse(rows);
    FlattenRows(swapped, len, height);
  }

  /**
   * Reading back what `write` wrote gives the width, height and pixel data
   * that were written, for every image of three channels whose header
   * fields fit in 32 bits; the reader as written agrees, since the file
   * starts with "BM" and carries the 40-byte header.
   */
  lemma WriteThenRead(width: int, height: int, data: seq<Byte>)
    requires width > 0 && height > 0 && |data| == width * height * 3
    requires Write(width, height, data).Ok?
    ensures Decode(Write(width, height, data).value) == Ok(ImageData(width, height, data))
    ensures DecodeAsWritten(Write(width, height, data).value) == Ok(ImageData(width, height, data))
  {
    WriteShape(width, height, data);
    RowBytes(width, height);
    var file := Write(width, height, data).value;
    var swapped := SwapChannelsSpec(width, height, data, 0, 2).value.data;
    WrittenParses(file, width, height, swapped);
    WrittenPixels(file, width, height, swapped);
    SwapChannelsInvolution(width, height, data, 0, 2);
    ReadWritten(file, width, height, swapped, ImageData(width, height, data));
  }

  /** Both readers on a file whose headers parse as a 24-bit image and whose rows read back as swapped. */
  lemma ReadWritten(file: seq<Byte>, width: nat, height: nat, swapped: seq<Byte>, image: ImageData)
    requires 0 < width && 0 < height && |file| >= HeaderSize && file[..2] == Marker
    requires U32(file[..FileHeaderSize], 10) == HeaderSize
    requires U32(file[FileHeaderSize..HeaderSize], 0) == InfoHeaderSize
    requires ParseInfo(file[FileHeaderSize..HeaderSize]) == Ok(InfoHeader(width, height, 1, 24, 0))
    requires Rows24(file, HeaderSize, width, height) == Ok(swapped)
    requires SwapChannelsSpec(width, height, swapped, 0, 2) == Ok(image)
    ensures Decode(file) == Ok(image) && DecodeAsWritten(file) == Ok(image)
  {
    var info := InfoHeader(width, height, 1, 24, 0);
    assert Take(file, 0, FileHeaderSize) == file[..FileHeaderSize];
    assert Take(file, FileHeaderSize, HeaderSize - FileHeaderSize) == file[FileHeaderSize..HeaderSize];
    PaletteDistinct();
    PaletteRepeats();
    Pixels24(file, info, Palette, ImageReadError, ImageFormatError, swapped, image);
    Pixels24(file, info, PaletteAsWritten, NameError, NameError, swapped, image);
  }

  /** The 24-bit path of Pixels does not look at the palette or the error kinds. */
  lemma Pixels24(file: seq<Byte>, info: InfoHeader, palette: seq<seq<Byte>>, compressionError: Error, depthError: Error,
                 swapped: seq<Byte>, image: ImageData)
    requires PaletteShape(palette) && info.compression == 0 && info.bpp == 24 && info.width > 0 && info.height > 0
    requires Rows24(file, HeaderSize, info.width, info.height) == Ok(swapped)
    requires SwapChannelsSpec(info.width, info.height, swapped, 0, 2) == Ok(image)
    ensures Pixels(file, HeaderSize, info, palette, compressionError, depthError) == Ok(image)
  {
  }

  /** Two files of one length that agree from offset k on read the same rows at any start from k on. */
  lemma {:induction false} RowsAgree(f: seq<Byte>, g: seq<Byte>, k: nat, start: nat, stride: nat, len: nat, count: nat)
    requires |f| == |g| && k <= |f| && f[k..] == g[k..] && k <= start
    ensures RowsPresent(f, start, stride, len, count) == RowsPresent(g, start, stride, len, count)
    ensures RowsAt(f, start, stride, len, count) == RowsAt(g, start, stride, len, count)
    decreases count
  {
    if count > 0 {
      RowsAgree(f, g, k, start + stride, stride, len, count - 1);
      var a := Min(start, |f|);
      var b := Min(start + len, |f|);
      forall j | a <= j < b
        ensures f[j] == g[j]
      {
        assert f[j] == f[k..][j - k] && g[j] == g[k..][j - k];
      }
      assert f[a..b] == g[a..b];
    }
  }

  /** Two files of one length that agree from offset k on agree on every suffix from k on. */
  lemma TailsAgree(f: seq<Byte>, g: seq<Byte>, k: nat, j: nat)
    requires |f| == |g| && k <= j <= |f| && f[k..] == g[k..]
    ensures f[j..] == g[j..]
  {
    assert f[j..] == f[k..][j - k..];
    assert g[j..] == g[k..][j - k..];
  }

  /** Pixels reads nothing before pos. */
  lemma PixelsAgree(f: seq<Byte>, g: seq<Byte>, k: nat, pos: nat, info: InfoHeader, palette: seq<seq<Byte>>,
                    compressionError: Error, depthError: Error)
    requires PaletteShape(palette)
    requires |f| == |g| && k <= |f| && f[k..] == g[k..] && k <= pos
    ensures Pixels(f, pos, info, palette, compressionError, depthError) == Pixels(g, pos, info, palette, compressionError, depthError)
  {
    TailsAgree(f, g, k, Min(pos, |f|));
    Rows24Agree(f, g, k, pos, info.width, info.height);
  }

  /** The 24-bit row loop reads nothing before start. */
  lemma Rows24Agree(f: seq<Byte>, g: seq<Byte>, k: nat, start: nat, width: nat, height: nat)
    requires |f| == |g| && k <= |f| && f[k..] == g[k..] && k <= start
    ensures Rows24(f, start, width, height) == Rows24(g, start, width, height)
  {
    var len := width * 3;
    RowsAgree(f, g, k, start, len + Padding(width), len, height);
  }

  /** Decode reads nothing of the first two bytes: only the marker check of the reader as written looks at them. */
  lemma MarkerIgnored(file: seq<Byte>, other: seq<Byte>)
    requires |file| == |other| >= 2 && file[2..] == other[2..]
    ensures Decode(file) == Decode(other)
  {
    if |file| >= FileHeaderSize {
      var header := Take(file, 0, FileHeaderSize);
      assert other[10..14] == other[2..][8..12];
      assert file[10..14] == file[2..][8..12];
      assert Take(other, 0, FileHeaderSize)[10..14] == header[10..14];
      var n := U32(header, 10) - FileHeaderSize;
      TailsAgree(file, other, 2, FileHeaderSize);
      var info := Take(file, FileHeaderSize, n);
      assert Take(other, FileHeaderSize, n) == info by {
        if n >= 0 {
          var b := Min(FileHeaderSize + n, |file|);
          assert other[FileHeaderSize..b] == other[FileHeaderSize..][..b - FileHeaderSize];
          assert file[FileHeaderSize..b] == file[FileHeaderSize..][..b - FileHeaderSize];
        }
      }
      PaletteDistinct();
      match ParseInfo(info)
      case Err(_) =>
      case Ok(h) =>
        PixelsAgree(file, other, 2, FileHeaderSize + |info|, h, Palette, ImageReadError, ImageFormatError);
    }
  }

  /**
   * A written file whose first byte is changed: the intended reader only
   * warns and reads the image back; the reader as written calls the
   * undefined `log` and raises NameError.
   */
  lemma MisMarkedFileRaises(width: int, height: int, data: seq<Byte>)
    requires width > 0 && height > 0 && |data| == width * height * 3
    requires Write(width, height, data).Ok?
    ensures var file := Write(width, height, data).value;
      Decode([0] + file[1..]) == Ok(ImageData(width, height, data))
      && DecodeAsWritten([0] + file[1..]) == Err(NameError)
  {
    WriteThenRead(width, height, data);
    MisMarked(Write(width, height, data).value);
  }

  /** Changing the first byte of a file marked "BM": Decode is unmoved, the reader as written raises NameError. */
  lemma MisMarked(file: seq<Byte>)
    requires |file| >= 2 && file[..2] == Marker
    ensures Decode([0] + file[1..]) == Decode(file) && DecodeAsWritten([0] + file[1..]) == Err(NameError)
  {
    var mismarked := [0] + file[1..];
    assert mismarked[2..] == file[2..];
    MarkerIgnored(mismarked, file);
    assert mismarked[..2] != Marker by {
      assert mismarked[0] == 0;
    }
  }

  /**
   * On a file marked "BM" with a 40-byte info header the two readers part
   * where the exceptions are: compression and an unknown depth raise
   * NameError as written, and ImageReadError and ImageFormatError as
   * intended. The 24-bit path reads the same image; the 4-bit path is
   * ReadersAgree4Bit.
   */
  lemma ReadersAgree(file: seq<Byte>)
    requires |file| >= FileHeaderSize && file[..2] == Marker
    requires var info := Take(file, FileHeaderSize, U32(file[..FileHeaderSize], 10) - FileHeaderSize);
      |info| >= 20 && U32(info, 0) == InfoHeaderSize
    ensures var info := Take(file, FileHeaderSize, U32(file[..FileHeaderSize], 10) - FileHeaderSize);
      var header := ParseInfo(info).value;
      (header.compression != 0 ==> Decode(file) == Err(ImageReadError) && DecodeAsWritten(file) == Err(NameError))
      && (header.compression == 0 && header.bpp != 4 && header.bpp != 24 ==>
            Decode(file) == Err(ImageFormatError) && DecodeAsWritten(file) == Err(NameError))
      && (header.compression == 0 && header.bpp == 24 ==> DecodeAsWritten(file) == Decode(file))
  {
    var info := Take(file, FileHeaderSize, U32(file[..FileHeaderSize], 10) - FileHeaderSize);
    var header := ParseInfo(info).value;
    DecodeHeaders(file, file, info, header);
    if header.bpp == 24 && header.compression == 0 {
      Pixels24Agree(file, FileHeaderSize + |info|, header, Palette, PaletteAsWritten,
                    ImageReadError, ImageFormatError, NameError, NameError);
    }
  }

  /**
   * On a marked 4-bit file with a 40-byte info header the readers differ in
   * the palette only: the reading as written is the corrected reading of
   * the file with every pixel nibble 13 (magenta) turned into 14 (cyan), so
   * the two agree when no pixel byte holds a nibble 13. The info header and
   * its parse are passed in as info and header.
   */
  lemma ReadersAgree4Bit(file: seq<Byte>, info: seq<Byte>, header: InfoHeader)
    requires |file| >= FileHeaderSize && file[..2] == Marker
    requires info == Take(file, FileHeaderSize, U32(file[..FileHeaderSize], 10) - FileHeaderSize)
    requires |info| >= 20 && U32(info, 0) == InfoHeaderSize && ParseInfo(info) == Ok(header)
    requires header.compression == 0 && header.bpp == 4
    ensures var pos := FileHeaderSize + |info|;
      pos <= |file| && DecodeAsWritten(file) == Decode(file[..pos] + CyanNibbles(file[pos..]))
      && (NoMagenta(file[pos..]) ==> DecodeAsWritten(file) == Decode(file))
  {
    var pos := FileHeaderSize + |info|;
    var pixels := file[pos..];
    var recoloured := file[..pos] + CyanNibbles(pixels);
    assert recoloured[..pos] == file[..pos];
    assert recoloured[pos..] == CyanNibbles(pixels);
    DecodeHeaders(file, recoloured, info, header);
    Pixels4(recoloured, pos, header, Palette, ImageReadError, ImageFormatError);
    Pixels4(file, pos, header, PaletteAsWritten, NameError, NameError);
    NibblesCyan(pixels);
    if NoMagenta(pixels) {
      CyanFixed(file, pos);
    }
  }

  /** No byte holds a nibble 13, so Cyan leaves every byte as it is. */
  predicate NoMagenta(pixels: seq<Byte>)
  {
    forall j :: 0 <= j < |pixels| ==> Cyan(pixels[j]) == pixels[j]
  }

  /** Recolouring bytes with no nibble 13 changes nothing. */
  lemma CyanFixed(file: seq<Byte>, pos: nat)
    requires pos <= |file| && NoMagenta(file[pos..])
    ensures file[..pos] + CyanNibbles(file[pos..]) == file
  {
    var pixels := file[pos..];
    assert CyanNibbles(pixels) == pixels;
    assert file[..pos] + pixels == file;
  }

  /** A marked file with a 40-byte info header, and one that agrees with it up to the pixels, go to Pixels the same way. */
  lemma DecodeHeaders(file: seq<Byte>, other: seq<Byte>, info: seq<Byte>, header: InfoHeader)
    requires |file| >= FileHeaderSize && file[..2] == Marker
    requires info == Take(file, FileHeaderSize, U32(file[..FileHeaderSize], 10) - FileHeaderSize)
    requires |info| >= 20 && U32(info, 0) == InfoHeaderSize && ParseInfo(info) == Ok(header)
    requires |other| == |file| && other[..FileHeaderSize + |info|] == file[..FileHeaderSize + |info|]
    ensures FileHeaderSize + |info| <= |file|
    ensures PaletteShape(Palette) && PaletteShape(PaletteAsWritten)
    ensures DecodeAsWritten(file) == Pixels(file, FileHeaderSize + |info|, header, PaletteAsWritten, NameError, NameError)
    ensures Decode(other) == Pixels(other, FileHeaderSize + |info|, header, Palette, ImageReadError, ImageFormatError)
  {
    SameHeaders(file, other, info);
    AsWrittenPixels(file, info, header);
    DecodePixels(other, info, header);
  }

  /** A file that agrees with another up to the pixels has the same file and info headers. */
  lemma SameHeaders(file: seq<Byte>, other: seq<Byte>, info: seq<Byte>)
    requires |file| >= FileHeaderSize
    requires info == Take(file, FileHeaderSize, U32(file[..FileHeaderSize], 10) - FileHeaderSize)
    requires |other| == |file| && other[..FileHeaderSize + |info|] == file[..FileHeaderSize + |info|]
    ensures FileHeaderSize + |info| <= |file| && other[..FileHeaderSize] == file[..FileHeaderSize]
    ensures info == Take(other, FileHeaderSize, U32(other[..FileHeaderSize], 10) - FileHeaderSize)
  {
    var pos := FileHeaderSize + |info|;
    assert other[..FileHeaderSize] == file[..FileHeaderSize];
    var n := U32(file[..FileHeaderSize], 10) - FileHeaderSize;
    if n < 0 {
      assert pos == |file|;
      assert other == other[..pos] && file == file[..pos];
    } else {
      assert Take(other, FileHeaderSize, n) == info;
    }
  }

  /** The reader as written on a marked file whose 40-byte info header parses as header. */
  lemma AsWrittenPixels(file: seq<Byte>, info: seq<Byte>, header: InfoHeader)
    requires |file| >= FileHeaderSize && file[..2] == Marker
    requires info == Take(file, FileHeaderSize, U32(file[..FileHeaderSize], 10) - FileHeaderSize)
    requires |info| >= 20 && U32(info, 0) == InfoHeaderSize && ParseInfo(info) == Ok(header)
    ensures PaletteShape(PaletteAsWritten)
    ensures DecodeAsWritten(file) == Pixels(file, FileHeaderSize + |info|, header, PaletteAsWritten, NameError, NameError)
  {
    PaletteRepeats();
    assert Take(file, 0, FileHeaderSize) == file[..FileHeaderSize];
  }

  /** The corrected reader on a file whose info header parses as header. */
  lemma DecodePixels(file: seq<Byte>, info: seq<Byte>, header: InfoHeader)
    requires |file| >= FileHeaderSize
    requires info == Take(file, FileHeaderSize, U32(file[..FileHeaderSize], 10) - FileHeaderSize)
    requires ParseInfo(info) == Ok(header)
    ensures PaletteShape(Palette)
    ensures Decode(file) == Pixels(file, FileHeaderSize + |info|, header, Palette, ImageReadError, ImageFormatError)
  {
    PaletteDistinct();
    assert Take(file, 0, FileHeaderSize) == file[..FileHeaderSize];
  }

  /** The 4-bit path of Pixels: the nibbles of the bytes from pos, as rows, bottom-up. */
  lemma Pixels4(file: seq<Byte>, pos: nat, info: InfoHeader, palette: seq<seq<Byte>>, compressionError: Error, depthError: Error)
    requires PaletteShape(palette) && pos <= |file| && info.compression == 0 && info.bpp == 4
    ensures Pixels(file, pos, info, palette, compressionError, depthError)
      == Ok(ImageData(info.width, info.height, Flatten(Reverse(RowsOf(Nibbles(file[pos..], palette), info.width * 3, info.height)))))
  {
  }

  /** A pixel byte with each nibble 13 turned into 14: its corrected colours are its colours as written. */
  function Cyan(b: Byte): (r: Byte)
    ensures PaletteShape(Palette) && PaletteShape(PaletteAsWritten)
      && Palette[r / 16] == PaletteAsWritten[b / 16] && Palette[r % 16] == PaletteAsWritten[b % 16]
  {
    PaletteDistinct();
    PaletteRepeats();
    var high := if b / 16 == 13 then 14 else b / 16;
    var low := if b % 16 == 13 then 14 else b % 16;
    assert (high * 16 + low) / 16 == high && (high * 16 + low) % 16 == low;
    high * 16 + low
  }

  /** Cyan on every byte. */
  function CyanNibbles(s: seq<Byte>): (r: seq<Byte>)
    ensures |r| == |s| && forall j :: 0 <= j < |s| ==> r[j] == Cyan(s[j])
  {
    if |s| == 0 then [] else CyanNibbles(s[..|s| - 1]) + [Cyan(s[|s| - 1])]
  }

  /** The nibbles of the recoloured bytes through the corrected palette are the nibbles through the palette as written. */
  lemma {:induction false} NibblesCyan(data: seq<Byte>)
    ensures PaletteShape(Palette) && PaletteShape(PaletteAsWritten)
      && Nibbles(CyanNibbles(data), Palette) == Nibbles(data, PaletteAsWritten)
  {
    PaletteDistinct();
    PaletteRepeats();
    if |data| > 0 {
      var n := |data| - 1;
      var recoloured := CyanNibbles(data);
      assert recoloured[..n] == CyanNibbles(data[..n]);
      NibblesCyan(data[..n]);
      var c := Cyan(data[n]);
      assert recoloured[n] == c;
    }
  }

  /** The 24-bit path of Pixels looks at neither the palette nor the error kinds. */
  lemma Pixels24Agree(file: seq<Byte>, pos: nat, info: InfoHeader, palette: seq<seq<Byte>>, palette': seq<seq<Byte>>,
                      compressionError: Error, depthError: Error, compressionError': Error, depthError': Error)
    requires PaletteShape(palette) && PaletteShape(palette') && info.compression == 0 && info.bpp == 24
    ensures Pixels(file, pos, info, palette, compressionError, depthError)
         == Pixels(file, pos, info, palette', compressionError', depthError')
  {
  }
}
