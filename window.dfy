/*
 * Windowed fills. The convolution and the two median filters compute only
 * the colour bytes of pixels at least `edge` pixels away from every side of
 * the image and leave every other byte of their zero-filled output alone.
 * The lemmas here carry the column-major fill invariant of module Raster
 * across the parts of the image those loops skip.
 */
module Window {
  import opened Core
  import opened Raster

  /** Byte q is a colour byte of a pixel at least e pixels from every side of a w * h image. */
  predicate Interior(q: int, w: int, h: int, c: int, e: int)
    requires w > 0 && c > 0
  {
    0 <= q && e <= ColOf(q, w, c) < w - e && e <= RowOf(q, w, c) < h - e && ChanOf(q, c) < 3
  }

  /** The final buffer is 0 everywhere the loops do not compute. */
  ghost predicate ZeroOutside(spec: seq<Byte>, w: int, h: int, c: int, e: int)
    requires w > 0 && c > 0
  {
    forall q :: 0 <= q < |spec| && !Interior(q, w, h, c, e) ==> spec[q] == 0
  }

  /** The zero-filled buffer is already right for every byte before the first interior pixel. */
  lemma WindowStart(out: seq<Byte>, spec: seq<Byte>, w: int, h: int, c: int, e: int)
    requires w > 0 && c > 0 && e >= 0
    requires |out| == |spec| && forall q :: 0 <= q < |out| ==> out[q] == 0
    requires ZeroOutside(spec, w, h, c, e)
    ensures Filled(out, spec, w, c, e, e, 0)
  {
  }

  /** After the three colour bytes of pixel (x, y) the loops continue at pixel (x, y + 1). */
  lemma WindowNextRow(out: seq<Byte>, spec: seq<Byte>, w: int, h: int, c: int, e: int, x: int, y: int)
    requires w > 0 && (c == 3 || c == 4)
    requires ZeroOutside(spec, w, h, c, e)
    requires Filled(out, spec, w, c, x, y, 3)
    ensures Filled(out, spec, w, c, x, y + 1, 0)
  {
    forall q | 0 <= q < |spec| && Visited(q, w, c, x, y, 3) != Visited(q, w, c, x, y + 1, 0)
      ensures spec[q] == 0
    {
      EncodeDecode(q, w, c);
    }
    FilledMove(out, spec, w, c, x, y, 3, x, y + 1, 0);
  }

  /** After the last interior row of column x the loops continue at row e of column x + 1. */
  lemma WindowNextColumn(out: seq<Byte>, spec: seq<Byte>, w: int, h: int, c: int, e: int, x: int, y: int)
    requires w > 0 && c > 0 && y >= h - e
    requires ZeroOutside(spec, w, h, c, e)
    requires Filled(out, spec, w, c, x, y, 0)
    ensures Filled(out, spec, w, c, x + 1, e, 0)
  {
    forall q | 0 <= q < |spec| && Visited(q, w, c, x, y, 0) != Visited(q, w, c, x + 1, e, 0)
      ensures spec[q] == 0
    {
      EncodeDecode(q, w, c);
    }
    FilledMove(out, spec, w, c, x, y, 0, x + 1, e, 0);
  }

  /** Once the columns up to w - e are done, the whole buffer is final. */
  lemma WindowDone(out: seq<Byte>, spec: seq<Byte>, w: int, h: int, c: int, e: int, x: int)
    requires w > 0 && c > 0 && x >= w - e
    requires ZeroOutside(spec, w, h, c, e)
    requires Filled(out, spec, w, c, x, e, 0)
    ensures out == spec
  {
    forall q | 0 <= q < |spec| ensures out[q] == spec[q] {
      EncodeDecode(q, w, c);
    }
  }

  /** An interior pixel's bytes, read back through Interior. */
  lemma InteriorIdx(x: int, y: int, k: int, w: int, h: int, c: int, e: int)
    requires w > 0 && c > 0 && 0 <= x < w && 0 <= y && 0 <= k < c
    ensures Interior(Idx(x, y, k, w, c), w, h, c, e) <==> e <= x < w - e && e <= y < h - e && k < 3
  {
    DecodeIdx(x, y, k, w, c);
    assert 0 <= Idx(x, y, k, w, c);
  }
}
