/** Byte strings, the representation every stage of the pipeline works on. */
module Bytes {

  /** One octet, as Go's `byte`. */
  newtype byte = b: int | 0 <= b < 256

  const SPACE: byte := 32
  const NEWLINE: byte := 10

  /** True if every byte is below 0x80. */
  predicate IsAscii(s: seq<byte>) {
    forall i | 0 <= i < |s| :: s[i] < 0x80
  }

  /** The bytes of a string whose characters are all below 256 (used to write examples). */
  function FromString(s: string): (r: seq<byte>)
    requires forall i | 0 <= i < |s| :: s[i] as int < 256
    ensures |r| == |s|
    ensures forall i | 0 <= i < |s| :: r[i] as int == s[i] as int
  {
    seq(|s|, i requires 0 <= i < |s| => s[i] as int as byte)
  }

  /** The concatenation of a sequence of byte strings. */
  function Concat(ws: seq<seq<byte>>): seq<byte> {
    if |ws| == 0 then [] else ws[0] + Concat(ws[1..])
  }

  lemma {:induction false} ConcatAppend(a: seq<seq<byte>>, b: seq<seq<byte>>)
    ensures Concat(a + b) == Concat(a) + Concat(b)
    decreases |a|
  {
    if |a| == 0 {
      assert a + b == b;
    } else {
      assert (a + b)[1..] == a[1..] + b;
      ConcatAppend(a[1..], b);
    }
  }
}
