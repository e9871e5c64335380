/**
 * The frequency table of main.go: a sequence of `Entry{Word, Freq}` records
 * that `incrEntry` updates by linear search, one token at a time.
 */
module FrequencyTable {
  import opened Bytes

  /** `Entry`: a word and the number of times it has been seen. */
  datatype Entry = Entry(word: seq<byte>, freq: int)

  /** The table invariant: words are pairwise distinct and every count is at least 1. */
  predicate Valid(entries: seq<Entry>) {
    && (forall i, j | 0 <= i < j < |entries| :: entries[i].word != entries[j].word)
    && (forall i | 0 <= i < |entries| :: entries[i].freq >= 1)
  }

  /** The sum of all counts. */
  function TotalFreq(entries: seq<Entry>): int {
    if |entries| == 0 then 0 else entries[0].freq + TotalFreq(entries[1..])
  }

  /** The count the table holds for `word`, summed over every entry with that word
      (0 when it has none; in a valid table there is at most one). */
  function FreqOf(entries: seq<Entry>, word: seq<byte>): int {
    if |entries| == 0 then 0
    else (if entries[0].word == word then entries[0].freq else 0) + FreqOf(entries[1..], word)
  }

  /** The set of words in the table. */
  function Words(entries: seq<Entry>): set<seq<byte>> {
    set i | 0 <= i < |entries| :: entries[i].word
  }

  /** The outcome of the scan in `incrEntry`: the position of a match, or none. */
  datatype Lookup = Found(index: nat) | Absent

  /** The position of the first entry for `word`, as the scan in `incrEntry` finds it. */
  function IndexOf(entries: seq<Entry>, word: seq<byte>): (r: Lookup)
    ensures r.Found? ==> r.index < |entries| && entries[r.index].word == word
    ensures r.Found? ==> forall j | 0 <= j < r.index :: entries[j].word != word
    ensures r.Absent? <==> forall j | 0 <= j < |entries| :: entries[j].word != word
  {
    if |entries| == 0 then Absent
    else if entries[0].word == word then Found(0)
    else match IndexOf(entries[1..], word)
      case Found(i) => Found(i + 1)
      case Absent => Absent
  }

  /** `incrEntry`: bump the count of the first entry for `word`, or append a new
      entry with count 1 when there is none. */
  function IncrEntry(entries: seq<Entry>, word: seq<byte>): (r: seq<Entry>)
    ensures (forall j | 0 <= j < |entries| :: entries[j].word != word) ==>
              r == entries + [Entry(word, 1)]
    ensures forall i | 0 <= i < |entries| && entries[i].word == word
                     && (forall j | 0 <= j < i :: entries[j].word != word) ::
              r == entries[i := Entry(word, entries[i].freq + 1)]
  {
    match IndexOf(entries, word)
    case Found(i) => entries[i := entries[i].(freq := entries[i].freq + 1)]
    case Absent => entries + [Entry(word, 1)]
  }

  /** The loop of `incrEntry` as written: scan by index, update in place and
      return at the first match, append after the loop otherwise. */
  method IncrEntryScan(entries: seq<Entry>, word: seq<byte>) returns (r: seq<Entry>)
    ensures r == IncrEntry(entries, word)
  {
    for i := 0 to |entries|
      invariant forall j | 0 <= j < i :: entries[j].word != word
    {
      if entries[i].word == word {
        r := entries[i := entries[i].(freq := entries[i].freq + 1)];
        return;
      }
    }
    r := entries + [Entry(word, 1)];
  }

  /** In a valid table the existing entry for a word is the only one: its count
      goes up by one, the length and every other entry stay as they were. */
  lemma IncrEntryExisting(entries: seq<Entry>, word: seq<byte>, i: nat)
    requires Valid(entries)
    requires i < |entries| && entries[i].word == word
    ensures |IncrEntry(entries, word)| == |entries|
    ensures IncrEntry(entries, word)[i] == Entry(word, entries[i].freq + 1)
    ensures forall j | 0 <= j < |entries| && j != i :: IncrEntry(entries, word)[j] == entries[j]
  {
  }

  /** A word the table lacks is appended with count 1 after an unchanged prefix. */
  lemma IncrEntryNew(entries: seq<Entry>, word: seq<byte>)
    requires word !in Words(entries)
    ensures |IncrEntry(entries, word)| == |entries| + 1
    ensures IncrEntry(entries, word)[..|entries|] == entries
    ensures IncrEntry(entries, word)[|entries|] == Entry(word, 1)
  {
  }

  /** `incrEntry` keeps the words distinct and every count positive. */
  lemma IncrEntryValid(entries: seq<Entry>, word: seq<byte>)
    requires Valid(entries)
    ensures Valid(IncrEntry(entries, word))
  {
  }

  lemma {:induction false} TotalFreqAppend(a: seq<Entry>, b: seq<Entry>)
    ensures TotalFreq(a + b) == TotalFreq(a) + TotalFreq(b)
    decreases |a|
  {
    if |a| == 0 {
      assert a + b == b;
    } else {
      assert (a + b)[1..] == a[1..] + b;
      TotalFreqAppend(a[1..], b);
    }
  }

  lemma {:induction false} TotalFreqUpdate(entries: seq<Entry>, i: nat, e: Entry)
    requires i < |entries|
    ensures TotalFreq(entries[i := e]) == TotalFreq(entries) - entries[i].freq + e.freq
    decreases i
  {
    if i > 0 {
      assert entries[i := e][1..] == entries[1..][i - 1 := e];
      TotalFreqUpdate(entries[1..], i - 1, e);
    }
  }

  /** Each call of `incrEntry` raises the sum of the counts by exactly one. */
  lemma IncrEntryTotal(entries: seq<Entry>, word: seq<byte>)
    ensures TotalFreq(IncrEntry(entries, word)) == TotalFreq(entries) + 1
  {
    match IndexOf(entries, word)
    case Found(i) =>
      var e := Entry(word, entries[i].freq + 1);
      assert IncrEntry(entries, word) == entries[i := e];
      TotalFreqUpdate(entries, i, e);
    case Absent =>
      var e := Entry(word, 1);
      assert IncrEntry(entries, word) == entries + [e];
      TotalFreqAppend(entries, [e]);
      assert TotalFreq([e]) == 1 by { assert [e][1..] == []; }
  }

  lemma {:induction false} FreqOfAppend(a: seq<Entry>, b: seq<Entry>, w: seq<byte>)
    ensures FreqOf(a + b, w) == FreqOf(a, w) + FreqOf(b, w)
    decreases |a|
  {
    if |a| == 0 {
      assert a + b == b;
    } else {
      assert (a + b)[1..] == a[1..] + b;
      FreqOfAppend(a[1..], b, w);
    }
  }

  lemma {:induction false} FreqOfUpdate(entries: seq<Entry>, i: nat, e: Entry, w: seq<byte>)
    requires i < |entries| && e.word == entries[i].word
    ensures FreqOf(entries[i := e], w)
         == FreqOf(entries, w) + (if e.word == w then e.freq - entries[i].freq else 0)
    decreases i
  {
    if i > 0 {
      assert entries[i := e][1..] == entries[1..][i - 1 := e];
      FreqOfUpdate(entries[1..], i - 1, e, w);
    }
  }

  /** `incrEntry` adds one to the count of its word and leaves every other word's count alone. */
  lemma IncrEntryFreqOf(entries: seq<Entry>, word: seq<byte>, w: seq<byte>)
    ensures FreqOf(IncrEntry(entries, word), w) == FreqOf(entries, w) + (if w == word then 1 else 0)
  {
    match IndexOf(entries, word)
    case Found(i) =>
      FreqOfUpdate(entries, i, Entry(word, entries[i].freq + 1), w);
    case Absent =>
      FreqOfAppend(entries, [Entry(word, 1)], w);
      assert FreqOf([Entry(word, 1)], w) == (if w == word then 1 else 0);
  }

  /** The words after `incrEntry` are the words before plus the new one. */
  lemma IncrEntryWords(entries: seq<Entry>, word: seq<byte>)
    ensures Words(IncrEntry(entries, word)) == Words(entries) + {word}
  {
    var r := IncrEntry(entries, word);
    match IndexOf(entries, word)
    case Found(i) =>
      forall w | w in Words(r) ensures w in Words(entries) + {word} {
        var k :| 0 <= k < |r| && r[k].word == w;
        assert r[k].word == entries[k].word;
      }
      forall w | w in Words(entries) ensures w in Words(r) {
        var k :| 0 <= k < |entries| && entries[k].word == w;
        assert r[k].word == w;
      }
      assert entries[i].word == word;
    case Absent =>
      assert r[|entries|].word == word;
      forall w | w in Words(entries) ensures w in Words(r) {
        var k :| 0 <= k < |entries| && entries[k].word == w;
        assert r[k].word == w;
      }
  }

  /** The loop in `main` over a line's tokens: `incrEntry` folded left to right. */
  function Accumulate(entries: seq<Entry>, tokens: seq<seq<byte>>): (r: seq<Entry>)
    decreases |tokens|
  {
    if |tokens| == 0 then entries else Accumulate(IncrEntry(entries, tokens[0]), tokens[1..])
  }

  /** Accumulating keeps a valid table valid. */
  lemma {:induction false} AccumulateValid(entries: seq<Entry>, tokens: seq<seq<byte>>)
    requires Valid(entries)
    ensures Valid(Accumulate(entries, tokens))
    decreases |tokens|
  {
    if |tokens| > 0 {
      IncrEntryValid(entries, tokens[0]);
      AccumulateValid(IncrEntry(entries, tokens[0]), tokens[1..]);
    }
  }

  /** Count conservation: accumulating adds exactly one to the total per token. */
  lemma {:induction false} AccumulateTotal(entries: seq<Entry>, tokens: seq<seq<byte>>)
    ensures TotalFreq(Accumulate(entries, tokens)) == TotalFreq(entries) + |tokens|
    decreases |tokens|
  {
    if |tokens| > 0 {
      IncrEntryTotal(entries, tokens[0]);
      AccumulateTotal(IncrEntry(entries, tokens[0]), tokens[1..]);
    }
  }

  /** Accumulating adds to each word's count its number of occurrences among the tokens. */
  lemma {:induction false} AccumulateFreqOf(entries: seq<Entry>, tokens: seq<seq<byte>>, w: seq<byte>)
    ensures FreqOf(Accumulate(entries, tokens), w) == FreqOf(entries, w) + multiset(tokens)[w]
    decreases |tokens|
  {
    if |tokens| > 0 {
      IncrEntryFreqOf(entries, tokens[0], w);
      AccumulateFreqOf(IncrEntry(entries, tokens[0]), tokens[1..], w);
      assert tokens == [tokens[0]] + tokens[1..];
      assert multiset(tokens) == multiset{tokens[0]} + multiset(tokens[1..]);
    } else {
      assert multiset(tokens) == multiset{};
    }
  }

  /** Accumulating adds exactly the tokens to the set of words. */
  lemma {:induction false} AccumulateWords(entries: seq<Entry>, tokens: seq<seq<byte>>)
    ensures Words(Accumulate(entries, tokens)) == Words(entries) + set t | t in tokens
    decreases |tokens|
  {
    if |tokens| > 0 {
      IncrEntryWords(entries, tokens[0]);
      AccumulateWords(IncrEntry(entries, tokens[0]), tokens[1..]);
      assert (set t | t in tokens) == {tokens[0]} + set t | t in tokens[1..];
    } else {
      assert (set t | t in tokens) == {};
    }
  }

  /** In a valid table an entry's count is the table's count for its word. */
  lemma {:induction false} FreqOfValid(entries: seq<Entry>, i: nat)
    requires Valid(entries) && i < |entries|
    ensures FreqOf(entries, entries[i].word) == entries[i].freq
    decreases i
  {
    if i == 0 {
      FreqOfAbsent(entries[1..], entries[0].word);
    } else {
      FreqOfValid(entries[1..], i - 1);
    }
  }

  lemma {:induction false} FreqOfAbsent(entries: seq<Entry>, w: seq<byte>)
    requires forall j | 0 <= j < |entries| :: entries[j].word != w
    ensures FreqOf(entries, w) == 0
    decreases |entries|
  {
    if |entries| > 0 {
      FreqOfAbsent(entries[1..], w);
    }
  }

  /** A valid table holds one entry per word. */
  lemma {:induction false} WordsCardinality(entries: seq<Entry>)
    requires Valid(entries)
    ensures |Words(entries)| == |entries|
    decreases |entries|
  {
    if |entries| > 0 {
      var tail := entries[1..];
      WordsCardinality(tail);
      assert Words(entries) == {entries[0].word} + Words(tail) by {
        forall w | w in Words(entries) ensures w in {entries[0].word} + Words(tail) {
          var k :| 0 <= k < |entries| && entries[k].word == w;
          if k > 0 { assert tail[k - 1].word == w; }
        }
      }
      assert entries[0].word !in Words(tail);
    }
  }

  /** The cases pinned by `TestIncrEntry` in main_test.go. */
  lemma IncrEntryExample()
    ensures IncrEntry([Entry(FromString("hello"), 2), Entry(FromString("world"), 1)], FromString("hello"))
         == [Entry(FromString("hello"), 3), Entry(FromString("world"), 1)]
    ensures IncrEntry([Entry(FromString("hello"), 3), Entry(FromString("world"), 1)], FromString("new"))
         == [Entry(FromString("hello"), 3), Entry(FromString("world"), 1), Entry(FromString("new"), 1)]
  {
    var hello, world, added := FromString("hello"), FromString("world"), FromString("new");
    assert hello[1] != world[1];
    assert hello[0] != added[0] && world[0] != added[0];
  }
}
