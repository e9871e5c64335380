/**
 * Tokenisation of a normalised line: `bytes.Fields` splits a byte string
 * around each run of ASCII white space and drops the empty pieces.
 */
module Tokenizer {
  import opened Bytes

  /** The ASCII white space of `bytes.Fields`: '\t', '\n', '\v', '\f', '\r' and ' '. */
  predicate IsSpace(b: byte) { 9 <= b <= 13 || b == SPACE }

  /** A token: non-empty and free of white space. */
  predicate IsWord(w: seq<byte>) {
    |w| > 0 && forall j | 0 <= j < |w| :: !IsSpace(w[j])
  }

  /** The length of the run of non-space bytes that starts `s`. */
  function WordLength(s: seq<byte>): (n: nat)
    ensures n <= |s|
    ensures forall j | 0 <= j < n :: !IsSpace(s[j])
    ensures n < |s| ==> IsSpace(s[n])
  {
    if |s| == 0 || IsSpace(s[0]) then 0 else 1 + WordLength(s[1..])
  }

  /** `bytes.Fields`: the maximal runs of non-space bytes, left to right. */
  function Fields(s: seq<byte>): (ws: seq<seq<byte>>)
    ensures forall i | 0 <= i < |ws| :: IsWord(ws[i])
    decreases |s|
  {
    if |s| == 0 then []
    else if IsSpace(s[0]) then Fields(s[1..])
    else
      var n := WordLength(s);
      [s[..n]] + Fields(s[n..])
  }

  /** `s` with every white-space byte dropped. */
  function RemoveSpaces(s: seq<byte>): seq<byte> {
    if |s| == 0 then [] else (if IsSpace(s[0]) then [] else [s[0]]) + RemoveSpaces(s[1..])
  }

  /** Words joined by single spaces, the reference inverse of `Fields`. */
  function Join(ws: seq<seq<byte>>): seq<byte> {
    if |ws| == 0 then [] else if |ws| == 1 then ws[0] else ws[0] + [SPACE] + Join(ws[1..])
  }

  lemma {:induction false} RemoveSpacesAppend(a: seq<byte>, b: seq<byte>)
    ensures RemoveSpaces(a + b) == RemoveSpaces(a) + RemoveSpaces(b)
    decreases |a|
  {
    if |a| > 0 {
      assert (a + b)[1..] == a[1..] + b;
      RemoveSpacesAppend(a[1..], b);
    } else {
      assert a + b == b;
    }
  }

  lemma {:induction false} RemoveSpacesOfWord(w: seq<byte>)
    requires forall j | 0 <= j < |w| :: !IsSpace(w[j])
    ensures RemoveSpaces(w) == w
    decreases |w|
  {
    if |w| > 0 {
      RemoveSpacesOfWord(w[1..]);
    }
  }

  /** The tokens, concatenated, are the line with its white space removed:
      `Fields` loses no letter and invents none. */
  lemma {:induction false} FieldsConcat(s: seq<byte>)
    ensures Concat(Fields(s)) == RemoveSpaces(s)
    decreases |s|
  {
    if |s| > 0 {
      if IsSpace(s[0]) {
        FieldsConcat(s[1..]);
      } else {
        var n := WordLength(s);
        assert s == s[..n] + s[n..];
        RemoveSpacesAppend(s[..n], s[n..]);
        RemoveSpacesOfWord(s[..n]);
        FieldsConcat(s[n..]);
        assert Fields(s)[1..] == Fields(s[n..]);
      }
    }
  }

  /** Every byte of every token comes from the line. */
  lemma FieldsBytesFromLine(s: seq<byte>)
    ensures forall i, j | 0 <= i < |Fields(s)| && 0 <= j < |Fields(s)[i]| :: Fields(s)[i][j] in s
  {
    var ws := Fields(s);
    forall i, j | 0 <= i < |ws| && 0 <= j < |ws[i]| ensures ws[i][j] in s {
      ConcatIndex(ws, i, j);
      FieldsConcat(s);
      RemoveSpacesSubset(s, ws[i][j]);
    }
  }

  lemma {:induction false} ConcatIndex(ws: seq<seq<byte>>, i: nat, j: nat)
    requires i < |ws| && j < |ws[i]|
    ensures ws[i][j] in Concat(ws)
    decreases i
  {
    if i == 0 {
      assert Concat(ws)[j] == ws[0][j];
    } else {
      ConcatIndex(ws[1..], i - 1, j);
    }
  }

  lemma {:induction false} RemoveSpacesSubset(s: seq<byte>, b: byte)
    requires b in RemoveSpaces(s)
    ensures b in s
    decreases |s|
  {
    if |s| > 0 && b != s[0] {
      RemoveSpacesSubset(s[1..], b);
    }
  }

  /** Splitting a line that ends in white space (or is empty) and then the rest
      yields the tokens of the whole: a line boundary never joins or cuts a token. */
  lemma {:induction false} FieldsAppend(a: seq<byte>, b: seq<byte>)
    requires |a| == 0 || IsSpace(a[|a| - 1])
    ensures Fields(a + b) == Fields(a) + Fields(b)
    decreases |a|
  {
    if |a| == 0 {
      assert a + b == b;
    } else if IsSpace(a[0]) {
      assert (a + b)[1..] == a[1..] + b;
      FieldsAppend(a[1..], b);
    } else {
      var n := WordLength(a);
      assert n < |a|;
      WordLengthPrefix(a, b);
      assert (a + b)[..n] == a[..n];
      assert (a + b)[n..] == a[n..] + b;
      FieldsAppend(a[n..], b);
    }
  }

  lemma {:induction false} WordLengthPrefix(a: seq<byte>, b: seq<byte>)
    requires WordLength(a) < |a|
    ensures WordLength(a + b) == WordLength(a)
    decreases |a|
  {
    if !IsSpace(a[0]) {
      assert (a + b)[1..] == a[1..] + b;
      WordLengthPrefix(a[1..], b);
    }
  }

  /** `Fields` inverts `Join`: words joined by single spaces split back into the same words. */
  lemma {:induction false} FieldsJoin(ws: seq<seq<byte>>)
    requires forall i | 0 <= i < |ws| :: IsWord(ws[i])
    ensures Fields(Join(ws)) == ws
    decreases |ws|
  {
    if |ws| == 1 {
      WordLengthOfWord(ws[0], []);
      assert ws[0][..|ws[0]|] == ws[0];
      assert ws[0][|ws[0]|..] == [];
    } else if |ws| > 1 {
      var w := ws[0];
      var rest := [SPACE] + Join(ws[1..]);
      WordLengthOfWord(w, rest);
      assert Join(ws) == w + rest;
      assert (w + rest)[..|w|] == w;
      assert (w + rest)[|w|..] == rest;
      assert rest[1..] == Join(ws[1..]);
      FieldsJoin(ws[1..]);
      assert Fields(Join(ws)) == [w] + Fields(rest);
    }
  }

  lemma {:induction false} WordLengthOfWord(w: seq<byte>, rest: seq<byte>)
    requires forall j | 0 <= j < |w| :: !IsSpace(w[j])
    requires |rest| == 0 || IsSpace(rest[0])
    ensures WordLength(w + rest) == |w|
    decreases |w|
  {
    if |w| == 0 {
      assert w + rest == rest;
    } else {
      assert (w + rest)[1..] == w[1..] + rest;
      WordLengthOfWord(w[1..], rest);
    }
  }
}
