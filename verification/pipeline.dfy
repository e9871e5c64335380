/**
 * The body of `main` with its I/O lifted out: the file's bytes are read line
 * by line, each line is normalised and split into tokens, every token is
 * counted, and the ranked table is reported.
 */
module Pipeline {
  import opened Bytes
  import opened Normalizer
  import opened Tokenizer
  import opened FrequencyTable
  import opened Ranking

  /** A line as `ReadBytes('\n')` returns it before end of file: it ends in its
      only '\n'. */
  predicate IsLine(l: seq<byte>) {
    |l| > 0 && l[|l| - 1] == NEWLINE && forall j | 0 <= j < |l| - 1 :: l[j] != NEWLINE
  }

  /** One past the first '\n' of `data`, or 0 when there is none. */
  function LineEnd(data: seq<byte>): (n: nat)
    ensures n <= |data|
    ensures n > 0 ==> IsLine(data[..n])
    ensures n == 0 ==> forall j | 0 <= j < |data| :: data[j] != NEWLINE
  {
    if |data| == 0 then 0
    else if data[0] == NEWLINE then 1
    else
      var m := LineEnd(data[1..]);
      if m == 0 then 0
      else
        assert data[..m + 1] == [data[0]] + data[1..][..m];
        m + 1
  }

  /** The lines the read loop hands to `process`. A final segment without a
      '\n' comes back together with `io.EOF`, and the loop stops before using it. */
  function ReadLines(data: seq<byte>): (lines: seq<seq<byte>>)
    ensures forall i | 0 <= i < |lines| :: IsLine(lines[i])
    decreases |data|
  {
    var n := LineEnd(data);
    if n == 0 then [] else [data[..n]] + ReadLines(data[n..])
  }

  /** The lines read are exactly a prefix of the file, and what is left over is
      an unterminated final segment: no '\n' in the file is lost. */
  lemma {:induction false} ReadLinesCover(data: seq<byte>)
    ensures |Concat(ReadLines(data))| <= |data|
    ensures Concat(ReadLines(data)) == data[..|Concat(ReadLines(data))|]
    ensures forall j | |Concat(ReadLines(data))| <= j < |data| :: data[j] != NEWLINE
    decreases |data|
  {
    var n := LineEnd(data);
    if n > 0 {
      var rest := data[n..];
      ReadLinesCover(rest);
      var c := Concat(ReadLines(rest));
      assert ReadLines(data)[1..] == ReadLines(rest);
      assert Concat(ReadLines(data)) == data[..n] + c;
      assert data[..n + |c|] == data[..n] + rest[..|c|];
      forall j | n + |c| <= j < |data| ensures data[j] != NEWLINE {
        assert data[j] == rest[j - n];
      }
    }
  }

  /** The tokens of every line, in order: `bytes.Fields(process(line))` per line. */
  function LineTokens(lines: seq<seq<byte>>): seq<seq<byte>> {
    if |lines| == 0 then [] else Fields(Process(lines[0])) + LineTokens(lines[1..])
  }

  /** Normalising a line that ends in '\n' gives text that ends in a space. */
  lemma ProcessedLineEndsInSpace(l: seq<byte>)
    requires IsLine(l)
    ensures |Process(l)| > 0 && Process(l)[|Process(l)| - 1] == SPACE
  {
    assert l == l[..|l| - 1] + [NEWLINE];
    ProcessAppend(l[..|l| - 1], [NEWLINE]);
    assert Process([NEWLINE]) == [SPACE];
  }

  /** Working line by line yields the same tokens as normalising and splitting
      all the lines at once: no token straddles a line end. */
  lemma {:induction false} LineTokensWholeText(lines: seq<seq<byte>>)
    requires forall i | 0 <= i < |lines| :: IsLine(lines[i])
    ensures LineTokens(lines) == Fields(Process(Concat(lines)))
    decreases |lines|
  {
    if |lines| > 0 {
      LineTokensWholeText(lines[1..]);
      ProcessAppend(lines[0], Concat(lines[1..]));
      ProcessedLineEndsInSpace(lines[0]);
      FieldsAppend(Process(lines[0]), Process(Concat(lines[1..])));
    }
  }

  /** Every token is a word; from an ASCII file every token byte is a lower-case letter. */
  lemma TokensAreLowercase(data: seq<byte>)
    requires IsAscii(data)
    ensures forall i, j | 0 <= i < |LineTokens(ReadLines(data))| && 0 <= j < |LineTokens(ReadLines(data))[i]| ::
              IsLower(LineTokens(ReadLines(data))[i][j])
  {
    var lines := ReadLines(data);
    var text := Concat(lines);
    ReadLinesCover(data);
    LineTokensWholeText(lines);
    assert IsAscii(text) by {
      forall k | 0 <= k < |text| ensures text[k] < 0x80 {
        assert text[k] == data[k];
      }
    }
    var p := Process(text);
    FieldsBytesFromLine(p);
    var ts := Fields(p);
    forall i, j | 0 <= i < |ts| && 0 <= j < |ts[i]| ensures IsLower(ts[i][j]) {
      assert ts[i][j] in p;
      assert IsWord(ts[i]);
    }
  }

  /** The table after the read loop. */
  function Table(data: seq<byte>): seq<Entry> {
    Accumulate([], LineTokens(ReadLines(data)))
  }

  /** What `main` does with the file's bytes: count, sort, report. */
  function Run(data: seq<byte>): Report {
    SelectTop(Rank(Table(data)))
  }

  /** The table holds one entry per distinct token, each with that token's
      number of occurrences, and the counts add up to the number of tokens. */
  lemma TableCounts(data: seq<byte>)
    ensures Valid(Table(data))
    ensures TotalFreq(Table(data)) == |LineTokens(ReadLines(data))|
    ensures Words(Table(data)) == set t | t in LineTokens(ReadLines(data))
    ensures |Table(data)| == |set t | t in LineTokens(ReadLines(data))|
    ensures forall i | 0 <= i < |Table(data)| ::
              Table(data)[i].freq == multiset(LineTokens(ReadLines(data)))[Table(data)[i].word]
  {
    var tokens := LineTokens(ReadLines(data));
    var table := Table(data);
    AccumulateValid([], tokens);
    AccumulateTotal([], tokens);
    AccumulateWords([], tokens);
    assert Words([]) == {};
    WordsCardinality(table);
    forall i | 0 <= i < |table| ensures table[i].freq == multiset(tokens)[table[i].word] {
      FreqOfValid(table, i);
      AccumulateFreqOf([], tokens, table[i].word);
    }
  }

  lemma {:induction false} DistinctMultiplicity(s: seq<Entry>, e: Entry)
    requires forall i, j | 0 <= i < j < |s| :: s[i] != s[j]
    ensures multiset(s)[e] <= 1
    decreases |s|
  {
    if |s| > 0 {
      assert s == [s[0]] + s[1..];
      DistinctMultiplicity(s[1..], e);
      if s[0] == e {
        assert e !in s[1..];
      }
    }
  }

  lemma TwoPositions(s: seq<Entry>, i: nat, j: nat)
    requires i < j < |s|
    ensures multiset(s)[s[i]] >= 1 + (if s[i] == s[j] then 1 else 0)
  {
    assert s == s[..j] + s[j..];
    assert s[i] in s[..j];
    assert s[j] in s[j..];
  }

  /** A permutation of a valid table is valid. */
  lemma PermutationValid(table: seq<Entry>, ranked: seq<Entry>)
    requires Valid(table) && multiset(ranked) == multiset(table)
    ensures Valid(ranked)
  {
    forall i | 0 <= i < |ranked| ensures ranked[i].freq >= 1 {
      assert ranked[i] in multiset(table);
    }
    forall i, j | 0 <= i < j < |ranked| ensures ranked[i].word != ranked[j].word {
      assert ranked[i] in multiset(table) && ranked[j] in multiset(table);
      var p :| 0 <= p < |table| && table[p] == ranked[i];
      var q :| 0 <= q < |table| && table[q] == ranked[j];
      DistinctMultiplicity(table, ranked[i]);
      TwoPositions(ranked, i, j);
    }
  }

  /** Ranking a valid table whose counts are the tokens' occurrences keeps both facts. */
  lemma RankKeepsCounts(table: seq<Entry>, tokens: seq<seq<byte>>)
    requires Valid(table)
    requires forall i | 0 <= i < |table| :: table[i].freq == multiset(tokens)[table[i].word]
    ensures Valid(Rank(table)) && |Rank(table)| == |table|
    ensures forall i | 0 <= i < |Rank(table)| :: Rank(table)[i].freq == multiset(tokens)[Rank(table)[i].word]
  {
    var ranked := Rank(table);
    PermutationValid(table, ranked);
    assert |multiset(ranked)| == |ranked| && |multiset(table)| == |table|;
    forall i | 0 <= i < |ranked| ensures ranked[i].freq == multiset(tokens)[ranked[i].word] {
      assert ranked[i] in multiset(table);
    }
  }

  /** The report of a valid table whose counts are the tokens' occurrences:
      counts never increase down the list, each printed word appears once with
      its number of occurrences, nothing left out outranks anything printed,
      and it faults exactly when there are fewer than 20 distinct tokens. */
  lemma ReportOfTable(table: seq<Entry>, tokens: seq<seq<byte>>)
    requires Valid(table)
    requires |table| == |set t | t in tokens|
    requires forall i | 0 <= i < |table| :: table[i].freq == multiset(tokens)[table[i].word]
    ensures SortedByFreq(SelectTop(Rank(table)).printed)
    ensures Valid(SelectTop(Rank(table)).printed)
    ensures forall i | 0 <= i < |SelectTop(Rank(table)).printed| ::
              SelectTop(Rank(table)).printed[i].freq
                == multiset(tokens)[SelectTop(Rank(table)).printed[i].word]
    ensures forall i, j | 0 <= i < |SelectTop(Rank(table)).printed| && 0 <= j < |table|
              && table[j] !in SelectTop(Rank(table)).printed ::
              SelectTop(Rank(table)).printed[i].freq >= table[j].freq
    ensures SelectTop(Rank(table)).faulted <==> |set t | t in tokens| < ReportSize
  {
    var ranked := Rank(table);
    var p := SelectTop(ranked).printed;
    SelectTopIsTop(ranked, table);
    RankKeepsCounts(table, tokens);
    assert forall i | 0 <= i < |p| :: p[i] == ranked[i];
  }

  /** The report of `main` on a file, with the counts taken over the tokens of
      the lines the read loop processes: min(20, d) lines for d distinct tokens,
      sorted by count, each word once with its number of occurrences, no
      unprinted token more frequent than a printed word, and a fault exactly
      when d < 20. */
  lemma RunReport(data: seq<byte>)
    ensures SortedByFreq(Run(data).printed)
    ensures Valid(Run(data).printed)
    ensures forall i | 0 <= i < |Run(data).printed| ::
              Run(data).printed[i].freq == multiset(LineTokens(ReadLines(data)))[Run(data).printed[i].word]
    ensures Run(data).faulted <==> |set t | t in LineTokens(ReadLines(data))| < ReportSize
    ensures |Run(data).printed|
         == if |set t | t in LineTokens(ReadLines(data))| < ReportSize
            then |set t | t in LineTokens(ReadLines(data))| else ReportSize
    ensures forall i, w | 0 <= i < |Run(data).printed|
              && (forall k | 0 <= k < |Run(data).printed| :: Run(data).printed[k].word != w) ::
              Run(data).printed[i].freq >= multiset(LineTokens(ReadLines(data)))[w]
  {
    TableCounts(data);
    ReportOfTable(Table(data), LineTokens(ReadLines(data)));
    RunReportLength(data);
    RunReportTop(data);
  }

  /** The report of `main` prints min(20, d) lines, d being the number of
      distinct tokens: all of them when there are fewer than 20, else 20. */
  lemma RunReportLength(data: seq<byte>)
    ensures |Run(data).printed|
         == if |set t | t in LineTokens(ReadLines(data))| < ReportSize
            then |set t | t in LineTokens(ReadLines(data))| else ReportSize
  {
    TableCounts(data);
    assert |multiset(Rank(Table(data)))| == |Rank(Table(data))|;
    assert |multiset(Table(data))| == |Table(data)|;
  }

  /** The report of a valid table whose words are the tokens and whose counts
      are their occurrences shows the most frequent words: a token that no
      printed line carries occurs no more often than any printed word. */
  lemma ReportTopOverTokens(table: seq<Entry>, tokens: seq<seq<byte>>)
    requires Valid(table)
    requires Words(table) == set t | t in tokens
    requires forall i | 0 <= i < |table| :: table[i].freq == multiset(tokens)[table[i].word]
    ensures forall i, w | 0 <= i < |SelectTop(Rank(table)).printed|
              && (forall k | 0 <= k < |SelectTop(Rank(table)).printed| :: SelectTop(Rank(table)).printed[k].word != w) ::
              SelectTop(Rank(table)).printed[i].freq >= multiset(tokens)[w]
  {
    var ranked := Rank(table);
    var p := SelectTop(ranked).printed;
    SelectTopIsTop(ranked, table);
    RankKeepsCounts(table, tokens);
    forall i, w | 0 <= i < |p| && (forall k | 0 <= k < |p| :: p[k].word != w)
      ensures p[i].freq >= multiset(tokens)[w]
    {
      assert p[i] == ranked[i];
      if w in tokens {
        assert w in Words(table);
        var j :| 0 <= j < |table| && table[j].word == w;
        assert table[j] !in p;
      }
    }
  }

  /** `ReportTopOverTokens` for the tokens of the file's processed lines. */
  lemma RunReportTop(data: seq<byte>)
    ensures forall i, w | 0 <= i < |Run(data).printed|
              && (forall k | 0 <= k < |Run(data).printed| :: Run(data).printed[k].word != w) ::
              Run(data).printed[i].freq >= multiset(LineTokens(ReadLines(data)))[w]
  {
    TableCounts(data);
    ReportTopOverTokens(Table(data), LineTokens(ReadLines(data)));
  }

  /** A file whose last line lacks its '\n' loses that line: "a\nb" counts only "a". */
  lemma UnterminatedLineDropped()
    ensures ReadLines(FromString("a\nb")) == [FromString("a\n")]
  {
    var data := FromString("a\nb");
    assert data[1..][0] == NEWLINE;
    assert LineEnd(data[1..]) == 1;
    assert LineEnd(data) == 2;
    var rest := data[2..];
    assert |rest| == 1 && rest[0] != NEWLINE;
    assert LineEnd(rest[1..]) == 0;
    assert LineEnd(rest) == 0;
    assert ReadLines(rest) == [];
    assert data[..2] == FromString("a\n");
  }
}
