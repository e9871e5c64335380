/**
 * The line normaliser `process` of main.go: every input byte becomes either
 * its lower-case letter or a single space.
 *
 * main.go classifies `rune(b)`, i.e. it reads each byte as a Latin-1 code
 * point, and writes the result back with `WriteRune`, which UTF-8-encodes it.
 * So ASCII input is transliterated byte for byte, while a byte that is a
 * Latin-1 letter (0xAA, 0xB5, 0xBA, 0xC0-0xFF except 0xD7 and 0xF7) is
 * re-emitted as two bytes. Both paths are modelled.
 */
module Normalizer {
  import opened Bytes

  predicate IsUpper(b: byte) { 65 <= b <= 90 }    // 'A'..'Z'
  predicate IsLower(b: byte) { 97 <= b <= 122 }   // 'a'..'z'
  predicate IsAsciiLetter(b: byte) { IsUpper(b) || IsLower(b) }

  /** Bytes at or above 0x80 that `unicode.IsLetter` accepts as Latin-1 code points. */
  predicate IsLatin1Letter(b: byte) {
    b == 0xAA || b == 0xB5 || b == 0xBA || (0xC0 <= b && b != 0xD7 && b != 0xF7)
  }

  /** `unicode.IsLetter(rune(b))`. */
  predicate IsLetter(b: byte) { IsAsciiLetter(b) || IsLatin1Letter(b) }

  /** Letters that `unicode.ToLower` changes: 'A'..'Z' and 0xC0..0xDE except 0xD7. */
  predicate IsUpperLetter(b: byte) { IsUpper(b) || (0xC0 <= b <= 0xDE && b != 0xD7) }

  /** `unicode.ToLower(rune(b))` for a code point below 0x100: an upper-case
      letter moves down by 0x20, every other code point is its own lower case. */
  function ToLower(b: byte): byte {
    if IsUpperLetter(b) then b + 32 else b
  }

  /** UTF-8 decoding of a one- or two-byte sequence. */
  function DecodeRune(e: seq<byte>): int
    requires |e| == 1 || |e| == 2
  {
    if |e| == 1 then e[0] as int else (e[0] as int - 0xC0) * 64 + (e[1] as int - 0x80)
  }

  /** `WriteRune` of a code point below 0x100: one byte below 0x80, two UTF-8
      bytes above, which decode back to the code point. */
  function EncodeRune(r: byte): (e: seq<byte>)
    ensures r < 0x80 ==> e == [r]
    ensures r >= 0x80 ==> |e| == 2 && 0xC2 <= e[0] <= 0xC3 && 0x80 <= e[1] < 0xC0
    ensures (|e| == 1 || |e| == 2) && DecodeRune(e) == r as int
  {
    if r < 0x80 then [r] else [0xC0 + r / 64, 0x80 + r % 64]
  }

  /** What one iteration of the loop in `process` appends to the buffer. */
  function ProcessByte(b: byte): seq<byte> {
    if IsLetter(b) then EncodeRune(ToLower(b)) else [SPACE]
  }

  /** A byte `process` may emit: a lower-case ASCII letter, a space, or part of
      the UTF-8 encoding of a Latin-1 letter. */
  predicate IsOutputByte(b: byte) { IsLower(b) || b == SPACE || b >= 0x80 }

  /** The number of Latin-1 letter bytes in `s`, each of which grows the output by one. */
  function Latin1Letters(s: seq<byte>): nat {
    if |s| == 0 then 0 else (if IsLatin1Letter(s[0]) then 1 else 0) + Latin1Letters(s[1..])
  }

  /** `process`: the byte-by-byte normaliser. */
  function Process(s: seq<byte>): (r: seq<byte>)
    ensures |r| == |s| + Latin1Letters(s)
    ensures forall i | 0 <= i < |r| :: IsOutputByte(r[i])
    ensures Latin1Letters(s) == 0 ==> IsAscii(r)
    ensures IsAscii(s) ==> IsAscii(r)
  {
    if |s| == 0 then [] else ProcessByte(s[0]) + Process(s[1..])
  }

  /** Each input byte is either a letter, emitted as its lower-case form, or a
      non-letter, emitted as one space: never both, never neither. */
  lemma ProcessByteClassifies(b: byte)
    ensures !IsLetter(b) <==> ProcessByte(b) == [SPACE]
    ensures IsLetter(b) ==> |ProcessByte(b)| in {1, 2}
    ensures IsLetter(b) ==>
              var d := DecodeRune(ProcessByte(b));
              0 <= d < 256 && IsLetter(d as byte) && !IsUpperLetter(d as byte)
              && d == (if IsUpperLetter(b) then b as int + 32 else b as int)
  {
    if IsLetter(b) {
      var d := ToLower(b);
      assert DecodeRune(EncodeRune(d)) == d as int;
      assert EncodeRune(d) != [SPACE] by {
        if d < 0x80 { assert d != SPACE; }
      }
    }
  }

  /** `process` distributes over concatenation: each output piece depends on one input byte only. */
  lemma {:induction false} ProcessAppend(a: seq<byte>, b: seq<byte>)
    ensures Process(a + b) == Process(a) + Process(b)
    decreases |a|
  {
    if |a| == 0 {
      assert a + b == b;
    } else {
      assert (a + b)[0] == a[0];
      assert (a + b)[1..] == a[1..] + b;
      ProcessAppend(a[1..], b);
    }
  }

  /** On ASCII input `process` is a position-wise transliteration: the length is
      kept, upper-case letters are lowered, lower-case letters are kept, and every
      other byte (digits, punctuation, '\n', ...) becomes a space. */
  lemma {:induction false} ProcessAscii(s: seq<byte>)
    requires IsAscii(s)
    ensures |Process(s)| == |s|
    ensures forall i | 0 <= i < |s| :: IsUpper(s[i]) ==> Process(s)[i] == s[i] + 32
    ensures forall i | 0 <= i < |s| :: IsLower(s[i]) ==> Process(s)[i] == s[i]
    ensures forall i | 0 <= i < |s| :: !IsAsciiLetter(s[i]) ==> Process(s)[i] == SPACE
    decreases |s|
  {
    if |s| > 0 {
      assert IsAscii(s[1..]) by {
        forall i | 0 <= i < |s[1..]| ensures s[1..][i] < 0x80 {
          assert s[1..][i] == s[i + 1];
        }
      }
      ProcessAscii(s[1..]);
      assert ProcessByte(s[0]) == [Process(s)[0]];
      forall i | 1 <= i < |s|
        ensures Process(s)[i] == Process(s[1..])[i - 1]
      {
      }
    }
  }

  /** Classification on ASCII input: an output byte is a letter exactly when the
      input byte at the same position is a letter, and a space exactly when it is not. */
  lemma ProcessClassifies(s: seq<byte>)
    requires IsAscii(s)
    ensures |Process(s)| == |s|
    ensures forall i | 0 <= i < |s| :: IsLower(Process(s)[i]) <==> IsAsciiLetter(s[i])
    ensures forall i | 0 <= i < |s| :: Process(s)[i] == SPACE <==> !IsAsciiLetter(s[i])
  {
    ProcessAscii(s);
  }

  /** Normalising an already normalised ASCII line changes nothing. */
  lemma ProcessIdempotent(s: seq<byte>)
    requires IsAscii(s)
    ensures Process(Process(s)) == Process(s)
  {
    var p := Process(s);
    ProcessAscii(s);
    ProcessAscii(p);
    assert Process(p) == p;
  }

  /** A Latin-1 letter byte is re-emitted as two bytes: 0xC0 ('À') becomes the
      UTF-8 encoding of 'à', so length is not kept and normalising twice differs. */
  lemma Latin1LetterWidens()
    ensures Process([0xC0]) == [0xC3, 0xA0]
    ensures Process(Process([0xC0])) != Process([0xC0])
  {
    assert Process([0xC0]) == ProcessByte(0xC0) + Process([]);
    var p: seq<byte> := [0xC3, 0xA0];
    assert p[1..] == [0xA0];
    assert Process(p) == ProcessByte(0xC3) + ProcessByte(0xA0) + Process([]);
  }

  /** A pinned case is met when the expected output agrees with the pointwise law above. */
  lemma ProcessMatches(input: string, expected: string)
    requires |input| == |expected|
    requires forall i | 0 <= i < |input| :: input[i] as int < 128 && expected[i] as int < 128
    requires forall i | 0 <= i < |input| ::
      expected[i] as int == (if 'A' <= input[i] <= 'Z' then input[i] as int + 32
                             else if 'a' <= input[i] <= 'z' then input[i] as int
                             else 32)
    ensures Process(FromString(input)) == FromString(expected)
  {
    var s := FromString(input);
    ProcessAscii(s);
    assert forall i | 0 <= i < |s| :: Process(s)[i] == FromString(expected)[i];
  }

  // The cases pinned by `TestProcess` in main_test.go.

  lemma ProcessExamplePunctuation()
    ensures Process(FromString("Hello, World!")) == FromString("hello  world ")
  {
    ProcessMatches("Hello, World!", "hello  world ");
  }

  lemma ProcessExampleDigits()
    ensures Process(FromString("123ABCxyz")) == FromString("   abcxyz")
  {
    ProcessMatches("123ABCxyz", "   abcxyz");
  }

  lemma ProcessExampleSymbols()
    ensures Process(FromString("!@#$%^&*()")) == FromString("          ")
  {
    ProcessMatches("!@#$%^&*()", "          ");
  }

  lemma ProcessExampleWords()
    ensures Process(FromString("Lorem Ipsum")) == FromString("lorem ipsum")
  {
    ProcessMatches("Lorem Ipsum", "lorem ipsum");
  }
}
