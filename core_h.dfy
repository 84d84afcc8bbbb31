/*
 * The shared definitions of the C extensions: the byte type of an image
 * buffer, the clip/max/min macros and the three-byte pixel layout.
 */
module Core {

  /** An `unsigned char` of an image buffer. */
  type Byte = b: int | 0 <= b < 256

  /** The `clip` macro: saturates an integer into the byte range. */
  function Clip(x: int): (r: Byte)
    ensures 0 <= x <= 255 ==> r == x
    ensures x <= 0 ==> r == 0
    ensures x >= 255 ==> r == 255
  {
    if x < 255 then (if x > 0 then x else 0) else 255
  }

  /** `clip` never decreases when its argument grows. */
  lemma ClipMonotone(x: int, y: int)
    requires x <= y
    ensures Clip(x) <= Clip(y)
  {
  }

  /** The `max` macro. */
  function Max(x: int, y: int): (r: int)
    ensures r == x || r == y
    ensures r >= x && r >= y
  {
    if x > y then x else y
  }

  /** The `min` macro. */
  function Min(x: int, y: int): (r: int)
    ensures r == x || r == y
    ensures r <= x && r <= y
  {
    if x < y then x else y
  }

  /** The `pixel3` struct: red, green and blue, one byte each, in that order. */
  datatype Pixel3 = Pixel3(red: Byte, green: Byte, blue: Byte)

  /** The three bytes a `pixel3` occupies in memory. */
  function Pixel3Bytes(p: Pixel3): (r: seq<Byte>)
    ensures |r| == 3
  {
    [p.red, p.green, p.blue]
  }

  /** Reading a `pixel3` through a pointer to byte i of a buffer. */
  function Pixel3At(s: seq<Byte>, i: int): (p: Pixel3)
    requires 0 <= i && i + 3 <= |s|
    ensures Pixel3Bytes(p) == s[i..i + 3]
  {
    Pixel3(s[i], s[i + 1], s[i + 2])
  }

  /** The layout round trip: a pixel read back from its own bytes is the same pixel. */
  lemma Pixel3Layout(p: Pixel3, rest: seq<Byte>)
    ensures Pixel3At(Pixel3Bytes(p) + rest, 0) == p
  {
  }

  /** The i-th `pixel3` of a palette string (what `pseudocolor` indexes). */
  function PaletteEntry(palette: seq<Byte>, i: int): (p: Pixel3)
    requires 0 <= i && 3 * i + 3 <= |palette|
    ensures p.red == palette[3 * i] && p.green == palette[3 * i + 1] && p.blue == palette[3 * i + 2]
  {
    Pixel3At(palette, 3 * i)
  }
}
