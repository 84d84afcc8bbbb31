/*
 * The image buffer every C extension works on: a flat, interleaved,
 * row-major byte string of width * height pixels of `channels` bytes each,
 * where the channel count is never passed in but derived from the length.
 *
 * This module also holds the one traversal the in-place extensions share:
 * a loop `for (i = 0; i < dataLen; i += channels)` that rewrites the bytes of
 * pixel i..i+channels from their old values. The length need not be a
 * multiple of the channel count: the pixel starts run from the front, and a
 * shorter trailing pixel is rewritten as far as the buffer reaches.
 */
module Raster {
  import opened Core
  import opened Errors

  /** The (width, height, data) triple the extensions return to Python. */
  datatype ImageData = ImageData(width: int, height: int, data: seq<Byte>)

  /** `channels = dataLen / ( width * height )` (integer division). */
  function ChannelCount(n: int, width: int, height: int): int
    requires width > 0 && height > 0
  {
    n / (width * height)
  }

  /** The `channels` pixels' bytes of every one of the width * height pixels lie inside the buffer. */
  lemma PixelBytesFit(n: int, width: int, height: int)
    requires width > 0 && height > 0 && n >= 0
    ensures ChannelCount(n, width, height) * (width * height) <= n
  {
    var p := width * height;
    assert n == (n / p) * p + n % p;
  }

  /** The channel check every extension starts with: 3 or 4, else ValueError. */
  function CheckChannels(n: int, width: int, height: int): (r: Result<int>)
    requires width > 0 && height > 0
    ensures r.Ok? <==> 3 <= n / (width * height) <= 4
    ensures r.Ok? ==> r.value == n / (width * height) && r.value * width * height <= n
    ensures r.Err? ==> r.error == ValueError
  {
    var c := ChannelCount(n, width, height);
    if c < 3 || c > 4 then Err(ValueError) else Ok(c)
  }

  /**
   * The channel check as written in the extensions that keep `channels` in an
   * `unsigned char`: the quotient is cut to its low eight bits before it is
   * compared with 3 and 4.
   */
  function CheckChannelsAsWritten(n: int, width: int, height: int): (r: Result<int>)
    requires width > 0 && height > 0
    ensures r.Ok? <==> 3 <= ChannelCount(n, width, height) % 256 <= 4
    ensures r.Err? ==> r.error == ValueError
  {
    var c := ChannelCount(n, width, height) % 256;
    if c < 3 || c > 4 then Err(ValueError) else Ok(c)
  }

  /** Below 256 channels per pixel the truncation is harmless: both checks agree. */
  lemma CheckChannelsAgree(n: int, width: int, height: int)
    requires width > 0 && height > 0 && 0 <= n < 256 * (width * height)
    ensures CheckChannelsAsWritten(n, width, height) == CheckChannels(n, width, height)
  {
    var p := width * height;
    assert n / p < 256 by {
      PixelBytesFit(n, width, height);
      if n / p >= 256 {
        MulLe(256, n / p, p);
      }
    }
  }

  /**
   * A one-pixel image of 259 bytes passes the truncated check as a
   * three-channel image (259 % 256 == 3), although its length is no whole
   * number of three-byte pixels, so the stride loop's last pixel (bytes 258
   * to 260) runs past the buffer.
   */
  lemma CheckChannelsAsWrittenAdmitsOverlong()
    ensures CheckChannelsAsWritten(259, 1, 1) == Ok(3)
    ensures CheckChannels(259, 1, 1) == Err(ValueError)
    ensures !Aligned(259, 3) && 258 + 3 > 259
  {
  }

  /**
   * Offset i is the first byte of a pixel of a 3- or 4-channel buffer
   * (`i % channels == 0`, written out per channel count).
   */
  predicate Aligned(i: int, c: int)
  {
    if c == 3 then i % 3 == 0 else i % 4 == 0
  }

  /** A pixel start below a whole-pixel length leaves room for that pixel. */
  lemma NextPixel(i: int, c: int, n: int)
    requires c == 3 || c == 4
    requires 0 <= i < n && Aligned(i, c) && Aligned(n, c)
    ensures i + c <= n && Aligned(i + c, c)
  {
    var p, q := i / c, n / c;
    if c == 3 {
      assert i == 3 * p && n == 3 * q && p < q;
    } else {
      assert i == 4 * p && n == 4 * q && p < q;
    }
    AlignedNext(i, c);
  }

  /** The next pixel starts a pixel later. */
  lemma AlignedNext(i: int, c: int)
    requires (c == 3 || c == 4) && Aligned(i, c)
    ensures Aligned(i + c, c)
  {
    if c == 3 {
      assert (i + 3) % 3 == i % 3;
    } else {
      assert (i + 4) % 4 == i % 4;
    }
  }

  /** The start of the last pixel of a whole-pixel buffer is a pixel start. */
  lemma AlignedBack(n: int, c: int)
    requires (c == 3 || c == 4) && Aligned(n, c)
    ensures Aligned(n - c, c)
  {
    if c == 3 {} else {}
  }

  /**
   * A stride loop `for (i = 0; i < dataLen; i += c)` that touches bytes
   * i..i+k of each pixel stays inside the buffer exactly when the trailing
   * partial pixel, if there is one, is longer than k bytes.
   */
  predicate StrideFits(n: int, c: int, k: int)
    requires c == 3 || c == 4
  {
    if c == 3 then n % 3 == 0 || n % 3 > k else n % 4 == 0 || n % 4 > k
  }

  /** The colour loops touch bytes 0..2 of every pixel; this is when they stay in the buffer. */
  predicate ColourBytesFit(n: int, width: int, height: int)
    requires width > 0 && height > 0
  {
    var c := ChannelCount(n, width, height);
    3 <= c <= 4 ==> StrideFits(n, c, 2)
  }

  /** Under StrideFits, byte k of every pixel the loop starts lies in the buffer. */
  lemma StrideByte(n: int, c: int, k: int, i: int)
    requires c == 3 || c == 4
    requires 0 <= k < c && StrideFits(n, c, k) && 0 <= i < n && Aligned(i, c)
    ensures i + k < n
  {
    if i + c > n {
      var p := i / c;
      if c == 3 {
        assert i == 3 * p && n == 3 * p + (n - i) && 0 < n - i < 3;
        assert n / 3 == p && n % 3 == n - i;
      } else {
        assert i == 4 * p && n == 4 * p + (n - i) && 0 < n - i < 4;
        assert n / 4 == p && n % 4 == n - i;
      }
    }
  }

  /**
   * The pixels of `s` from the left, `c` bytes each, each rewritten by `g`;
   * a shorter trailing pixel is handed to `g` as it is.
   */
  function MapPixels(s: seq<Byte>, c: int, g: seq<Byte> -> seq<Byte>): seq<Byte>
    requires c > 0
    decreases |s|
  {
    if |s| == 0 then []
    else if |s| < c then g(s)
    else g(s[..c]) + MapPixels(s[c..], c, g)
  }

  /** `g` turns every pixel, whole or partial, into one of the same size. */
  ghost predicate PreservesLength(g: seq<Byte> -> seq<Byte>, c: int)
  {
    forall px: seq<Byte> {:trigger g(px)} :: |px| <= c ==> |g(px)| == |px|
  }

  /** The colours of a pixel rewritten by `f`, any further byte (alpha) kept. */
  function Recolour(f: Pixel3 -> Pixel3): seq<Byte> -> seq<Byte>
  {
    (px: seq<Byte>) => if |px| < 3 then px else Pixel3Bytes(f(Pixel3At(px, 0))) + px[3..]
  }

  lemma RecolourPreservesLength(f: Pixel3 -> Pixel3, c: int)
    ensures PreservesLength(Recolour(f), c)
  {
    forall px: seq<Byte> | |px| <= c ensures |Recolour(f)(px)| == |px| {
      if |px| >= 3 {
        assert |Pixel3Bytes(f(Pixel3At(px, 0)))| == 3;
      }
    }
  }

  lemma {:induction false} MapPixelsLength(s: seq<Byte>, c: int, g: seq<Byte> -> seq<Byte>)
    requires c > 0 && PreservesLength(g, c)
    ensures |MapPixels(s, c, g)| == |s|
    decreases |s|
  {
    if |s| >= c {
      MapPixelsLength(s[c..], c, g);
      assert |g(s[..c])| == c;
    } else if |s| > 0 {
      assert |g(s)| == |s|;
    }
  }

  /** Mapping splits at every pixel boundary. */
  lemma {:induction false} MapPixelsAppend(a: seq<Byte>, b: seq<Byte>, c: int, g: seq<Byte> -> seq<Byte>)
    requires c == 3 || c == 4
    requires Aligned(|a|, c)
    ensures MapPixels(a + b, c, g) == MapPixels(a, c, g) + MapPixels(b, c, g)
    decreases |a|
  {
    if |a| == 0 {
      assert a + b == b;
    } else {
      assert |a| >= c by { if c == 3 {} else {} }
      assert Aligned(|a[c..]|, c) by { if c == 3 {} else {} }
      MapPixelsAppend(a[c..], b, c, g);
      assert (a + b)[..c] == a[..c];
      assert (a + b)[c..] == a[c..] + b;
    }
  }

  /** One more whole pixel at a pixel boundary. */
  lemma MapPixelsSnoc(s: seq<Byte>, c: int, g: seq<Byte> -> seq<Byte>, i: int)
    requires c == 3 || c == 4
    requires 0 <= i && Aligned(i, c) && i + c <= |s|
    ensures MapPixels(s[..i + c], c, g) == MapPixels(s[..i], c, g) + g(s[i..i + c])
  {
    assert s[..i + c] == s[..i] + s[i..i + c];
    MapPixelsAppend(s[..i], s[i..i + c], c, g);
    assert s[i..i + c][..c] == s[i..i + c];
    assert s[i..i + c][c..] == [];
  }

  /** The trailing partial pixel is mapped on its own. */
  lemma MapPixelsTail(s: seq<Byte>, c: int, g: seq<Byte> -> seq<Byte>, i: int)
    requires c == 3 || c == 4
    requires 0 <= i < |s| < i + c && Aligned(i, c)
    ensures MapPixels(s, c, g) == MapPixels(s[..i], c, g) + g(s[i..])
  {
    assert s == s[..i] + s[i..];
    MapPixelsAppend(s[..i], s[i..], c, g);
  }

  /** The state of a stride loop at offset i: the pixels before i mapped, the rest as they were; past the end, all mapped. */
  predicate MappedUpTo(d: seq<Byte>, s: seq<Byte>, c: int, g: seq<Byte> -> seq<Byte>, i: int)
    requires c == 3 || c == 4
  {
    && |d| == |s| && 0 <= i && Aligned(i, c)
    && if i <= |s| then d[..i] == MapPixels(s[..i], c, g) && d[i..] == s[i..] else d == MapPixels(s, c, g)
  }

  /** A stride loop that has passed the end has mapped the whole buffer. */
  lemma MappedDone(d: seq<Byte>, s: seq<Byte>, c: int, g: seq<Byte> -> seq<Byte>, i: int)
    requires c == 3 || c == 4
    requires MappedUpTo(d, s, c, g, i) && i >= |s|
    ensures d == MapPixels(s, c, g)
  {
    if i == |s| {
      assert d == d[..i] && s == s[..i];
    }
  }

  lemma SuffixStep(d: seq<Byte>, d': seq<Byte>, s: seq<Byte>, i: int, j: int)
    requires 0 <= i <= j <= |d| == |s| && j <= |d'|
    requires d[i..] == s[i..] && d'[j..] == d[j..]
    ensures d'[j..] == s[j..]
  {
    assert d[j..] == d[i..][j - i..];
  }

  /** One iteration of a stride loop: the pixel at i is rewritten, nothing else moves. */
  lemma MapStep(d: seq<Byte>, d': seq<Byte>, s: seq<Byte>, c: int, g: seq<Byte> -> seq<Byte>, i: int)
    requires c == 3 || c == 4
    requires MappedUpTo(d, s, c, g, i) && i < |s|
    requires |d'| == |d| && d'[..i] == d[..i]
    requires i + c <= |s| ==> d'[i + c..] == d[i + c..] && d'[i..i + c] == g(s[i..i + c])
    requires i + c > |s| ==> d'[i..] == g(s[i..])
    ensures MappedUpTo(d', s, c, g, i + c)
  {
    assert Aligned(i + c, c) by { if c == 3 {} else {} }
    if i + c <= |s| {
      MapPixelsSnoc(s, c, g, i);
      assert d'[..i + c] == d'[..i] + d'[i..i + c];
      SuffixStep(d, d', s, i, i + c);
    } else {
      MapPixelsTail(s, c, g, i);
      assert d' == d'[..i] + d'[i..];
    }
  }

  /** Writing the colours of `p` over bytes i..i+2 of an unmapped suffix recolours the pixel s[i..e]. */
  lemma RecolourSlice(d: seq<Byte>, s: seq<Byte>, f: Pixel3 -> Pixel3, i: int, e: int, p: Pixel3)
    requires 0 <= i && i + 3 <= e <= |s| == |d| && d[i..] == s[i..]
    requires p == f(Pixel3At(s, i))
    ensures d[i := p.red][i + 1 := p.green][i + 2 := p.blue][i..e] == Recolour(f)(s[i..e])
  {
    var d' := d[i := p.red][i + 1 := p.green][i + 2 := p.blue];
    assert Pixel3At(s[i..e], 0) == Pixel3At(s, i);
    assert s[i..e][3..] == s[i + 3..e];
    forall k | 0 <= k < e - i
      ensures d'[i..e][k] == (Pixel3Bytes(p) + s[i + 3..e])[k]
    {
      if k >= 3 {
        assert d[i..][k] == s[i..][k];
      }
    }
  }

  /** One iteration of a loop that rewrites bytes 0..2 of the pixel at i with the colours of `p`. */
  lemma RecolourStep(d: seq<Byte>, s: seq<Byte>, c: int, f: Pixel3 -> Pixel3, i: int, p: Pixel3)
    requires c == 3 || c == 4
    requires MappedUpTo(d, s, c, Recolour(f), i) && i + 2 < |s|
    requires p == f(Pixel3At(s, i))
    ensures MappedUpTo(d[i := p.red][i + 1 := p.green][i + 2 := p.blue], s, c, Recolour(f), i + c)
  {
    var d' := d[i := p.red][i + 1 := p.green][i + 2 := p.blue];
    assert d'[..i] == d[..i];
    if i + c <= |s| {
      RecolourSlice(d, s, f, i, i + c, p);
      assert d'[i + c..] == d[i + c..];
    } else {
      RecolourSlice(d, s, f, i, |s|, p);
      assert d'[i..] == d'[i..|s|] && s[i..] == s[i..|s|];
    }
    MapStep(d, d', s, c, Recolour(f), i);
  }

  /**
   * The pixel loop shared by the colour transforms: every pixel's three colour
   * bytes are read, mapped by f and written back; byte 3 of a four-channel
   * pixel is not touched.
   */
  method RecolourLoop(data: array<Byte>, channels: int, f: Pixel3 -> Pixel3)
    requires channels == 3 || channels == 4
    requires StrideFits(data.Length, channels, 2)
    modifies data
    ensures data[..] == MapPixels(old(data[..]), channels, Recolour(f))
  {
    ghost var s := data[..];
    var i := 0;
    while i < data.Length
      invariant MappedUpTo(data[..], s, channels, Recolour(f), i)
      decreases data.Length - i
    {
      StrideByte(data.Length, channels, 2, i);
      assert data[i..i + 3] == s[i..i + 3];
      var p := f(Pixel3(data[i], data[i + 1], data[i + 2]));
      RecolourStep(data[..], s, channels, f, i, p);
      data[i] := p.red;
      data[i + 1] := p.green;
      data[i + 2] := p.blue;
      i := i + channels;
    }
    MappedDone(data[..], s, channels, Recolour(f), i);
  }

  /** Every whole pixel of the output is `g` of the same pixel of the input. */
  lemma MapPixelsAt(s: seq<Byte>, c: int, g: seq<Byte> -> seq<Byte>, i: int)
    requires c == 3 || c == 4
    requires PreservesLength(g, c)
    requires 0 <= i && Aligned(i, c) && i + c <= |s|
    ensures |MapPixels(s, c, g)| == |s|
    ensures MapPixels(s, c, g)[i..i + c] == g(s[i..i + c])
  {
    MapPixelsLength(s, c, g);
    MapPixelsLength(s[..i], c, g);
    assert s == s[..i] + s[i..];
    MapPixelsAppend(s[..i], s[i..], c, g);
    assert s[i..][..c] == s[i..i + c];
    assert |g(s[i..i + c])| == c;
  }

  /** The trailing partial pixel of the output is `g` of the input's. */
  lemma MapPixelsLastAt(s: seq<Byte>, c: int, g: seq<Byte> -> seq<Byte>, i: int)
    requires c == 3 || c == 4
    requires PreservesLength(g, c)
    requires 0 <= i < |s| < i + c && Aligned(i, c)
    ensures |MapPixels(s, c, g)| == |s|
    ensures MapPixels(s, c, g)[i..] == g(s[i..])
  {
    MapPixelsLength(s, c, g);
    MapPixelsLength(s[..i], c, g);
    MapPixelsTail(s, c, g, i);
  }

  /** Mapping with `g` and then with `h` is mapping once with their composition `k`. */
  lemma {:induction false} MapPixelsCompose(s: seq<Byte>, c: int, g: seq<Byte> -> seq<Byte>, h: seq<Byte> -> seq<Byte>, k: seq<Byte> -> seq<Byte>)
    requires c > 0 && PreservesLength(g, c)
    requires forall px: seq<Byte> {:trigger k(px)} :: |px| <= c ==> k(px) == h(g(px))
    ensures MapPixels(MapPixels(s, c, g), c, h) == MapPixels(s, c, k)
    decreases |s|
  {
    if 0 < |s| < c {
      assert |g(s)| == |s|;
      assert k(s) == h(g(s));
    } else if |s| >= c {
      var px := s[..c];
      var rest := s[c..];
      MapPixelsCompose(rest, c, g, h, k);
      MapPixelsLength(rest, c, g);
      var once := MapPixels(s, c, g);
      assert once == g(px) + MapPixels(rest, c, g);
      assert |g(px)| == c;
      assert once[..c] == g(px);
      assert once[c..] == MapPixels(rest, c, g);
      assert k(px) == h(g(px));
    }
  }

  /** A pixel map that changes no pixel changes no buffer. */
  lemma {:induction false} MapPixelsIdentity(s: seq<Byte>, c: int, g: seq<Byte> -> seq<Byte>)
    requires c > 0
    requires forall px: seq<Byte> {:trigger g(px)} :: |px| <= c ==> g(px) == px
    ensures MapPixels(s, c, g) == s
    decreases |s|
  {
    if |s| >= c {
      MapPixelsIdentity(s[c..], c, g);
      assert g(s[..c]) == s[..c];
      assert s == s[..c] + s[c..];
    } else if |s| > 0 {
      assert g(s) == s;
    }
  }

  /**
   * The colour rewrite at one pixel whose colour bytes lie in the buffer,
   * whole or trailing: bytes 0..2 become `f` of the old colours, alpha is kept.
   */
  lemma RecolourAt(s: seq<Byte>, c: int, f: Pixel3 -> Pixel3, i: int)
    requires c == 3 || c == 4
    requires 0 <= i && Aligned(i, c) && i + 2 < |s|
    ensures |MapPixels(s, c, Recolour(f))| == |s|
    ensures Pixel3At(MapPixels(s, c, Recolour(f)), i) == f(Pixel3At(s, i))
    ensures c == 4 && i + 3 < |s| ==> MapPixels(s, c, Recolour(f))[i + 3] == s[i + 3]
  {
    RecolourPreservesLength(f, c);
    var r := MapPixels(s, c, Recolour(f));
    var e := if i + c <= |s| then i + c else |s|;
    if i + c <= |s| {
      MapPixelsAt(s, c, Recolour(f), i);
    } else {
      MapPixelsLastAt(s, c, Recolour(f), i);
      assert s[i..] == s[i..e];
      assert r[i..] == r[i..e];
    }
    assert Pixel3At(s[i..e], 0) == Pixel3At(s, i);
    assert r[i..e] == Pixel3Bytes(f(Pixel3At(s, i))) + s[i + 3..e];
    assert r[i] == r[i..e][0] && r[i + 1] == r[i..e][1] && r[i + 2] == r[i..e][2];
    if c == 4 && i + 3 < |s| {
      assert r[i + 3] == r[i..e][3];
    }
  }

  /** Two colour rewrites in a row are one rewrite with the composed colour map `f3`. */
  lemma RecolourCompose(s: seq<Byte>, c: int, f1: Pixel3 -> Pixel3, f2: Pixel3 -> Pixel3, f3: Pixel3 -> Pixel3)
    requires c == 3 || c == 4
    requires forall p: Pixel3 {:trigger f3(p)} :: f3(p) == f2(f1(p))
    ensures MapPixels(MapPixels(s, c, Recolour(f1)), c, Recolour(f2)) == MapPixels(s, c, Recolour(f3))
  {
    RecolourPreservesLength(f1, c);
    forall px: seq<Byte> | |px| <= c
      ensures Recolour(f3)(px) == Recolour(f2)(Recolour(f1)(px))
    {
      if |px| >= 3 {
        var q := Recolour(f1)(px);
        assert Pixel3At(q, 0) == f1(Pixel3At(px, 0));
        assert q[3..] == px[3..];
      }
    }
    MapPixelsCompose(s, c, Recolour(f1), Recolour(f2), Recolour(f3));
  }

  /** A colour map that fixes every colour leaves the buffer as it was. */
  lemma RecolourIdentity(s: seq<Byte>, c: int, f: Pixel3 -> Pixel3)
    requires c == 3 || c == 4
    requires forall p: Pixel3 {:trigger f(p)} :: f(p) == p
    ensures MapPixels(s, c, Recolour(f)) == s
  {
    forall px: seq<Byte> | |px| <= c
      ensures Recolour(f)(px) == px
    {
      if |px| >= 3 {
        assert Pixel3Bytes(Pixel3At(px, 0)) + px[3..] == px;
      }
    }
    MapPixelsIdentity(s, c, Recolour(f));
  }

  /*
   * Pixel coordinates. The extensions address byte k of pixel (x, y) as
   * `x * channels + y * width * channels + k`, which is `Idx(x, y, k, width, channels)`.
   */
  function Idx(x: int, y: int, k: int, w: int, c: int): int { (x + y * w) * c + k }
  function ColOf(q: int, w: int, c: int): int requires w > 0 && c > 0 { (q / c) % w }
  function RowOf(q: int, w: int, c: int): int requires w > 0 && c > 0 { (q / c) / w }
  function ChanOf(q: int, c: int): int requires c > 0 { q % c }

  lemma MulMono(d: int, t: int)
    requires d > 0 && t >= 1
    ensures d * t >= d
  {
  }

  lemma DivModUnique(q: int, d: int, a: int, b: int)
    requires d > 0 && 0 <= b < d && q == a * d + b
    ensures q / d == a && q % d == b
  {
    var a' := q / d;
    var b' := q % d;
    assert q == a' * d + b';
    if a > a' {
      MulMono(d, a - a');
    } else if a < a' {
      MulMono(d, a' - a);
    }
  }

  /** Byte k of pixel (x, y) decodes back to channel k, column x and row y. */
  lemma DecodeIdx(x: int, y: int, k: int, w: int, c: int)
    requires w > 0 && c > 0 && 0 <= x < w && 0 <= y && 0 <= k < c
    ensures ChanOf(Idx(x, y, k, w, c), c) == k
    ensures ColOf(Idx(x, y, k, w, c), w, c) == x
    ensures RowOf(Idx(x, y, k, w, c), w, c) == y
  {
    DivModUnique(Idx(x, y, k, w, c), c, x + y * w, k);
    DivModUnique(x + y * w, w, y, x);
  }

  /** Every byte offset is byte ChanOf of pixel (ColOf, RowOf). */
  lemma EncodeDecode(q: int, w: int, c: int)
    requires w > 0 && c > 0 && q >= 0
    ensures q == Idx(ColOf(q, w, c), RowOf(q, w, c), ChanOf(q, c), w, c)
    ensures 0 <= ColOf(q, w, c) < w && 0 <= RowOf(q, w, c) && 0 <= ChanOf(q, c) < c
  {
    var p := q / c;
    assert q == p * c + q % c && 0 <= p;
    assert p == (p / w) * w + p % w && 0 <= p / w;
    assert ColOf(q, w, c) + RowOf(q, w, c) * w == p;
    assert Idx(ColOf(q, w, c), RowOf(q, w, c), ChanOf(q, c), w, c) == p * c + q % c;
  }

  /** A byte of a pixel inside the image lies inside the w * h * c bytes of the image. */
  lemma IdxBound(x: int, y: int, k: int, w: int, h: int, c: int)
    requires w > 0 && c > 0 && 0 <= x < w && 0 <= y < h && 0 <= k < c
    ensures 0 <= Idx(x, y, k, w, c) < w * h * c
  {
    assert x + y * w < w * h by {
      MulMono(w, h - y);
      assert w * (h - y) == w * h - y * w;
    }
    assert x + y * w + 1 <= w * h;
    assert (x + y * w + 1) * c <= (w * h) * c by {
      var t := w * h - (x + y * w + 1);
      assert t >= 0;
      assert (w * h) * c == (x + y * w + 1) * c + t * c;
    }
    assert 0 <= (x + y * w) * c;
  }
  /*
   * Column-major fills. The convolution, median, and scaling loops run
   * `for x { for y { for k { out[Idx(x, y, k)] = ... } } }`, so at any point the
   * bytes already written are those whose coordinates come earlier in that order.
   */
  predicate Visited(q: int, w: int, c: int, x: int, y: int, k: int)
    requires w > 0 && c > 0
  {
    ColOf(q, w, c) < x || (ColOf(q, w, c) == x && (RowOf(q, w, c) < y || (RowOf(q, w, c) == y && ChanOf(q, c) < k)))
  }

  /** A fill into uninitialised memory: every visited byte holds its final value. */
  ghost predicate FilledWeak(out: seq<Byte>, spec: seq<Byte>, w: int, c: int, x: int, y: int, k: int)
    requires w > 0 && c > 0
  {
    |out| == |spec| && forall q :: 0 <= q < |spec| && Visited(q, w, c, x, y, k) ==> out[q] == spec[q]
  }

  /** A fill into zeroed memory: visited bytes hold their final value, all others are still 0. */
  ghost predicate Filled(out: seq<Byte>, spec: seq<Byte>, w: int, c: int, x: int, y: int, k: int)
    requires w > 0 && c > 0
  {
    |out| == |spec| && forall q :: 0 <= q < |spec| ==> out[q] == if Visited(q, w, c, x, y, k) then spec[q] else 0
  }

  /** Only byte Idx(x, y, k) is visited at step k + 1 and not at step k. */
  lemma VisitedNext(q: int, w: int, c: int, x: int, y: int, k: int)
    requires w > 0 && c > 0 && 0 <= x < w && 0 <= y && 0 <= k < c && q >= 0
    ensures Visited(q, w, c, x, y, k + 1) <==> (Visited(q, w, c, x, y, k) || q == Idx(x, y, k, w, c))
  {
    EncodeDecode(q, w, c);
    DecodeIdx(x, y, k, w, c);
  }

  lemma FilledWeakStep(out: seq<Byte>, spec: seq<Byte>, w: int, c: int, x: int, y: int, k: int)
    requires w > 0 && c > 0 && 0 <= x < w && 0 <= y && 0 <= k < c
    requires 0 <= Idx(x, y, k, w, c) < |spec|
    requires FilledWeak(out, spec, w, c, x, y, k)
    ensures FilledWeak(out[Idx(x, y, k, w, c) := spec[Idx(x, y, k, w, c)]], spec, w, c, x, y, k + 1)
  {
    forall q | 0 <= q < |spec| ensures Visited(q, w, c, x, y, k + 1) <==> (Visited(q, w, c, x, y, k) || q == Idx(x, y, k, w, c)) {
      VisitedNext(q, w, c, x, y, k);
    }
  }

  lemma FilledStep(out: seq<Byte>, spec: seq<Byte>, w: int, c: int, x: int, y: int, k: int)
    requires w > 0 && c > 0 && 0 <= x < w && 0 <= y && 0 <= k < c
    requires 0 <= Idx(x, y, k, w, c) < |spec|
    requires Filled(out, spec, w, c, x, y, k)
    ensures Filled(out[Idx(x, y, k, w, c) := spec[Idx(x, y, k, w, c)]], spec, w, c, x, y, k + 1)
  {
    forall q | 0 <= q < |spec| ensures Visited(q, w, c, x, y, k + 1) <==> (Visited(q, w, c, x, y, k) || q == Idx(x, y, k, w, c)) {
      VisitedNext(q, w, c, x, y, k);
    }
  }

  /** Moving the loop position is harmless when it changes the visited set only where the final value is 0. */
  lemma FilledMove(out: seq<Byte>, spec: seq<Byte>, w: int, c: int, x: int, y: int, k: int, x': int, y': int, k': int)
    requires w > 0 && c > 0
    requires Filled(out, spec, w, c, x, y, k)
    requires forall q :: 0 <= q < |spec| && Visited(q, w, c, x, y, k) != Visited(q, w, c, x', y', k') ==> spec[q] == 0
    ensures Filled(out, spec, w, c, x', y', k')
  {
  }

  /** Moving the loop position is harmless when it visits no byte that was not visited. */
  lemma FilledWeakMove(out: seq<Byte>, spec: seq<Byte>, w: int, c: int, x: int, y: int, k: int, x': int, y': int, k': int)
    requires w > 0 && c > 0
    requires FilledWeak(out, spec, w, c, x, y, k)
    requires forall q :: 0 <= q < |spec| && Visited(q, w, c, x', y', k') ==> Visited(q, w, c, x, y, k)
    ensures FilledWeak(out, spec, w, c, x', y', k')
  {
  }

  /** After the last channel of pixel (x, y) the fill continues with pixel (x, y + 1). */
  lemma FilledWeakNextRow(out: seq<Byte>, spec: seq<Byte>, w: int, c: int, x: int, y: int)
    requires w > 0 && c > 0
    requires FilledWeak(out, spec, w, c, x, y, c)
    ensures FilledWeak(out, spec, w, c, x, y + 1, 0)
  {
    forall q | 0 <= q < |spec| && Visited(q, w, c, x, y + 1, 0)
      ensures Visited(q, w, c, x, y, c)
    {
      EncodeDecode(q, w, c);
    }
  }

  /** After the last row of column x the fill continues with column x + 1. */
  lemma FilledWeakNextColumn(out: seq<Byte>, spec: seq<Byte>, w: int, h: int, c: int, x: int)
    requires w > 0 && c > 0 && h >= 0 && |spec| <= w * h * c
    requires FilledWeak(out, spec, w, c, x, h, 0)
    ensures FilledWeak(out, spec, w, c, x + 1, 0, 0)
  {
    forall q | 0 <= q < |spec| && Visited(q, w, c, x + 1, 0, 0)
      ensures Visited(q, w, c, x, h, 0)
    {
      VisitedNextColumn(q, w, h, c, x);
    }
  }

  lemma VisitedNextColumn(q: int, w: int, h: int, c: int, x: int)
    requires w > 0 && c > 0 && h >= 0 && 0 <= q < w * h * c
    requires Visited(q, w, c, x + 1, 0, 0)
    ensures Visited(q, w, c, x, h, 0)
  {
    EncodeDecode(q, w, c);
    RowBound(q, w, h, c);
  }

  /** Once every column is done, the buffer is the specification. */
  lemma FilledWeakDone(out: seq<Byte>, spec: seq<Byte>, w: int, c: int)
    requires w > 0 && c > 0
    requires FilledWeak(out, spec, w, c, w, 0, 0)
    ensures out == spec
  {
    forall q | 0 <= q < |spec| ensures out[q] == spec[q] {
      EncodeDecode(q, w, c);
    }
  }

  /** The bytes of a w * h image of c channels all lie in rows 0..h-1. */
  lemma RowBound(q: int, w: int, h: int, c: int)
    requires w > 0 && c > 0 && h >= 0 && 0 <= q < w * h * c
    ensures RowOf(q, w, c) < h
  {
    EncodeDecode(q, w, c);
    var p := q / c;
    var r := RowOf(q, w, c);
    assert p * c <= q by { assert q == p * c + q % c; }
    assert p == ColOf(q, w, c) + r * w by { assert p == (p / w) * w + p % w; }
    if r >= h {
      MulLe(h, r, w);
      MulLe(h * w, p, c);
      assert false;
    }
  }

  lemma MulLe(a: int, b: int, d: int)
    requires a <= b && d >= 0
    ensures a * d <= b * d
  {
    assert b * d - a * d == (b - a) * d;
  }
}
