/*
 * The thermal-image plugin: `pseudocolor` with a fixed sixteen-colour
 * palette running from black through purple, blue, cyan, green and yellow
 * to red, each colour used for two neighbouring slots.
 */
module Thermal {
  import opened Core
  import opened Errors
  import opened Raster
  import opened Color

  /** A byte string written twice in a row (`b * 2`). */
  function Twice(b: seq<Byte>): (r: seq<Byte>)
    ensures |r| == 2 * |b| && r[..|b|] == b && r[|b|..] == b
  {
    b + b
  }

  /** `COLORS`: eight colours, each written twice, as 48 bytes. */
  const COLORS: seq<Byte> :=
    Twice([0x00, 0x00, 0x00]) + Twice([0x80, 0x00, 0xff]) +
    Twice([0x00, 0x00, 0xff]) + Twice([0x00, 0xff, 0xff]) +
    Twice([0x00, 0xff, 0x00]) + Twice([0xff, 0xff, 0x00]) +
    Twice([0xff, 0x80, 0x00]) + Twice([0xff, 0x00, 0x00])

  /** The palette passes `pseudocolor`'s length check; it starts black and ends red. */
  lemma ColorsShape()
    ensures |COLORS| == 48
    ensures PaletteEntry(COLORS, 0) == Pixel3(0, 0, 0)
    ensures PaletteEntry(COLORS, 15) == Pixel3(255, 0, 0)
  {
  }

  /** Slots 2k and 2k + 1 hold the same colour. */
  lemma ColorsPaired(k: int)
    requires 0 <= k < 8
    ensures |COLORS| == 48
    ensures PaletteEntry(COLORS, 2 * k) == PaletteEntry(COLORS, 2 * k + 1)
  {
    if k == 0 {} else if k == 1 {} else if k == 2 {} else if k == 3 {}
    else if k == 4 {} else if k == 5 {} else if k == 6 {} else {}
  }

  /** The colour of grey level `grey`: palette entry 2 * (grey / 32), one per pair of slots. */
  function Heat(grey: Byte): Pixel3
  {
    PaletteEntry(COLORS, 2 * (grey as int / 32))
  }

  /** `execute`: `pseudocolor` with `COLORS`, its result returned unchanged. */
  function Execute(width: int, height: int, data: seq<Byte>): (r: Result<ImageData>)
    requires width > 0 && height > 0
    ensures r.Err? <==> CheckChannels(|data|, width, height).Err?
    ensures r.Err? ==> r.error == ValueError
    ensures r.Ok? ==> r.value.width == width && r.value.height == height && |r.value.data| == |data|
  {
    PseudocolorSpec(width, height, data, COLORS)
  }

  /**
   * Because the colours come in pairs, each pixel's colour is fixed by the
   * top three bits of its grey value: it becomes entry 2 * (grey / 32).
   */
  lemma ExecuteAt(width: int, height: int, s: seq<Byte>, i: int)
    requires width > 0 && height > 0 && ColourBytesFit(|s|, width, height)
    requires Execute(width, height, s).Ok?
    requires 0 <= i < |s| && Aligned(i, ChannelCount(|s|, width, height))
    ensures i + 2 < |s|
    ensures Pixel3At(Execute(width, height, s).value.data, i) == Heat(GreyLevel(Pixel3(s[i], s[i + 1], s[i + 2])))
    ensures ChannelCount(|s|, width, height) == 4 && i + 3 < |s| ==> Execute(width, height, s).value.data[i + 3] == s[i + 3]
  {
    PseudocolorAt(width, height, s, COLORS, i);
    var grey := GreyLevel(Pixel3(s[i], s[i + 1], s[i + 2])) as int;
    assert grey == (s[i] as int + s[i + 1] as int + s[i + 2] as int) / 3;
    var k := grey / 16;
    var pair := grey / 32;
    assert 0 <= pair < 8;
    assert k == 2 * pair || k == 2 * pair + 1;
    ColorsPaired(pair);
    var out := Execute(width, height, s).value.data;
    assert Pixel3At(out, i) == PaletteEntry(COLORS, k);
  }
}
