/*
 * The `moduleTest` extension: a single `reverse` that copies a byte string
 * back to front into a fresh buffer.
 */
module ModuleTest {
  import opened Core

  /** The bytes of `s` back to front. */
  function Reversed(s: seq<Byte>): (r: seq<Byte>)
    ensures |r| == |s|
    ensures forall i :: 0 <= i < |s| ==> r[i] == s[|s| - 1 - i]
  {
    if s == [] then [] else Reversed(s[1..]) + [s[0]]
  }

  /** Reversing twice gives the original string back. */
  lemma ReversedTwice(s: seq<Byte>)
    ensures Reversed(Reversed(s)) == s
  {
    var r := Reversed(Reversed(s));
    forall i | 0 <= i < |s| ensures r[i] == s[i] {
      assert Reversed(s)[|s| - 1 - i] == s[i];
    }
  }

  /** Reversing a concatenation reverses the parts and swaps them. */
  lemma {:induction false} ReversedConcat(a: seq<Byte>, b: seq<Byte>)
    ensures Reversed(a + b) == Reversed(b) + Reversed(a)
  {
    var l, r := Reversed(a + b), Reversed(b) + Reversed(a);
    forall i | 0 <= i < |a| + |b| ensures l[i] == r[i] {
      if i < |b| {
        assert (a + b)[|a| + |b| - 1 - i] == b[|b| - 1 - i];
      } else {
        assert (a + b)[|a| + |b| - 1 - i] == a[|a| - 1 - (i - |b|)];
      }
    }
  }

  /** `moduleTest_reverse`: out[i] = in[n - 1 - i] for every i, into a fresh buffer. */
  method Reverse(data: array<Byte>) returns (out: array<Byte>)
    ensures out.Length == data.Length
    ensures out[..] == Reversed(data[..])
  {
    var n := data.Length;
    out := new Byte[n];
    for i := 0 to n
      invariant forall j :: 0 <= j < i ==> out[j] == data[n - j - 1]
    {
      out[i] := data[n - i - 1];
    }
  }
}
