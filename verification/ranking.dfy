/**
 * Ranking and selection in `main`: `sort.Slice` orders the entries by count,
 * highest first, and the report loop reads exactly the first 20 of them.
 */
module Ranking {
  import opened FrequencyTable

  /** The fixed number of entries the report loop reads. */
  const ReportSize: nat := 20

  /** Counts never increase along `s`. */
  predicate SortedByFreq(s: seq<Entry>) {
    forall i, j | 0 <= i < j < |s| :: s[i].freq >= s[j].freq
  }

  /** `r` is one admissible outcome of the sort: the same entries, highest count first.
      The comparator fixes no order among equal counts, so several may exist. */
  predicate IsRanking(r: seq<Entry>, entries: seq<Entry>) {
    SortedByFreq(r) && multiset(r) == multiset(entries)
  }

  /** Putting an entry whose count is at least the head's in front of a sorted list keeps it sorted. */
  lemma SortedCons(x: Entry, t: seq<Entry>)
    requires SortedByFreq(t)
    requires |t| == 0 || x.freq >= t[0].freq
    ensures SortedByFreq([x] + t)
  {
    var r := [x] + t;
    forall i, j | 0 <= i < j < |r| ensures r[i].freq >= r[j].freq {
      if i == 0 {
        assert r[j] == t[j - 1];
        assert t[0].freq >= t[j - 1].freq || j == 1;
      } else {
        assert r[i] == t[i - 1] && r[j] == t[j - 1];
      }
    }
  }

  /** Inserts `e` in front of the first entry whose count does not exceed its own. */
  function Insert(e: Entry, s: seq<Entry>): (r: seq<Entry>)
    requires SortedByFreq(s)
    ensures SortedByFreq(r)
    ensures multiset(r) == multiset(s) + multiset{e}
    ensures |r| == |s| + 1
    ensures r[0] == e || (|s| > 0 && r[0] == s[0])
  {
    if |s| == 0 || e.freq >= s[0].freq then
      SortedCons(e, s);
      [e] + s
    else
      assert s == [s[0]] + s[1..];
      assert SortedByFreq(s[1..]) by {
        forall i, j | 0 <= i < j < |s[1..]| ensures s[1..][i].freq >= s[1..][j].freq {
          assert s[1..][i] == s[i + 1] && s[1..][j] == s[j + 1];
        }
      }
      var t := Insert(e, s[1..]);
      SortedCons(s[0], t);
      [s[0]] + t
  }

  /** The sort of main.go: one ranking of the entries (insertion sort, which
      happens to keep equal counts in table order). */
  function Rank(entries: seq<Entry>): (r: seq<Entry>)
    ensures IsRanking(r, entries)
  {
    if |entries| == 0 then []
    else
      assert entries == [entries[0]] + entries[1..];
      Insert(entries[0], Rank(entries[1..]))
  }

  /** Dropping the entry at position `k` keeps a ranking sorted and removes
      exactly that entry. */
  lemma RemoveAt(b: seq<Entry>, k: nat)
    requires SortedByFreq(b) && k < |b|
    ensures SortedByFreq(b[..k] + b[k + 1..])
    ensures multiset(b[..k] + b[k + 1..]) == multiset(b) - multiset{b[k]}
  {
    var b' := b[..k] + b[k + 1..];
    assert b == b[..k] + [b[k]] + b[k + 1..];
    forall i, j | 0 <= i < j < |b'| ensures b'[i].freq >= b'[j].freq {
      var bi := if i < k then i else i + 1;
      var bj := if j < k then j else j + 1;
      assert b'[i] == b[bi] && b'[j] == b[bj];
    }
  }

  /** Two rankings of the same entries agree on the count at every position:
      the order chosen among equal counts never changes the count column. */
  lemma {:induction false} RankingFreqsAgree(a: seq<Entry>, b: seq<Entry>)
    requires SortedByFreq(a) && SortedByFreq(b) && multiset(a) == multiset(b)
    ensures |a| == |b|
    ensures forall i | 0 <= i < |a| :: a[i].freq == b[i].freq
    decreases |a|
  {
    assert |multiset(a)| == |a| && |multiset(b)| == |b|;
    if |a| > 0 {
      var k := HeadsAgree(a, b);
      RemoveHeads(a, b, k);
      RankingFreqsAgree(a[1..], b[..k] + b[k + 1..]);
      TailsAgree(a, b, k);
    }
  }

  /** Dropping the first entry of `a` and its copy at `k` in `b` leaves two
      sorted lists with the same entries. */
  lemma RemoveHeads(a: seq<Entry>, b: seq<Entry>, k: nat)
    requires SortedByFreq(a) && SortedByFreq(b) && multiset(a) == multiset(b)
    requires |a| > 0 && k < |b| && b[k] == a[0]
    ensures SortedByFreq(a[1..]) && SortedByFreq(b[..k] + b[k + 1..])
    ensures multiset(a[1..]) == multiset(b[..k] + b[k + 1..])
  {
    RemoveAt(b, k);
    assert a == [a[0]] + a[1..];
    assert multiset(a[1..]) == multiset(a) - multiset{a[0]};
    forall i, j | 0 <= i < j < |a[1..]| ensures a[1..][i].freq >= a[1..][j].freq {
      assert a[1..][i] == a[i + 1] && a[1..][j] == a[j + 1];
    }
  }

  lemma TailsAgree(a: seq<Entry>, b: seq<Entry>, k: nat)
    requires |a| == |b| && k < |b|
    requires forall i | 0 <= i <= k :: b[i].freq == a[0].freq
    requires forall i | 0 <= i < |a| - 1 :: a[1..][i].freq == (b[..k] + b[k + 1..])[i].freq
    ensures forall i | 0 <= i < |a| :: a[i].freq == b[i].freq
  {
    var b' := b[..k] + b[k + 1..];
    forall i | 1 <= i < |a| ensures a[i].freq == b[i].freq {
      assert a[i] == a[1..][i - 1];
      if i <= k {
        assert b'[i - 1] == b[i - 1];
      } else {
        assert b'[i - 1] == b[i];
      }
    }
  }

  /** The first entry of one ranking sits at some position `k` of the other, and
      every count up to `k` there equals its count. */
  lemma HeadsAgree(a: seq<Entry>, b: seq<Entry>) returns (k: nat)
    requires SortedByFreq(a) && SortedByFreq(b) && multiset(a) == multiset(b) && |a| > 0
    ensures k < |b| && b[k] == a[0]
    ensures forall i | 0 <= i <= k :: b[i].freq == a[0].freq
  {
    assert a[0] in multiset(b);
    k :| 0 <= k < |b| && b[k] == a[0];
    assert b[0] in multiset(a);
    var m :| 0 <= m < |a| && a[m] == b[0];
  }

  /** What the report loop does with a ranked table: it prints entries 0..19 in
      order; with fewer than 20 entries it prints all of them and then faults
      on the out-of-range index. */
  datatype Report = Report(printed: seq<Entry>, faulted: bool)

  function SelectTop(ranked: seq<Entry>): (r: Report)
    ensures |r.printed| == if |ranked| < ReportSize then |ranked| else ReportSize
    ensures r.printed == ranked[..|r.printed|]
    ensures r.faulted <==> |ranked| < ReportSize
  {
    if |ranked| < ReportSize then Report(ranked, true) else Report(ranked[..ReportSize], false)
  }

  /** The report is a true top list: no entry of the table left out of it has a
      higher count than any entry in it, and the printed counts do not increase. */
  lemma SelectTopIsTop(ranked: seq<Entry>, entries: seq<Entry>)
    requires IsRanking(ranked, entries)
    ensures SortedByFreq(SelectTop(ranked).printed)
    ensures forall i, j | 0 <= i < |SelectTop(ranked).printed| && 0 <= j < |entries|
              && entries[j] !in SelectTop(ranked).printed ::
              SelectTop(ranked).printed[i].freq >= entries[j].freq
  {
    var p := SelectTop(ranked).printed;
    forall i, j | 0 <= i < |p| && 0 <= j < |entries| && entries[j] !in p
      ensures p[i].freq >= entries[j].freq
    {
      assert entries[j] in multiset(ranked);
      var k :| 0 <= k < |ranked| && ranked[k] == entries[j];
    }
  }

  /** Whatever order the sort leaves equal counts in, the report shows the same
      counts and faults in the same cases. */
  lemma SelectTopIgnoresTies(a: seq<Entry>, b: seq<Entry>, entries: seq<Entry>)
    requires IsRanking(a, entries) && IsRanking(b, entries)
    ensures SelectTop(a).faulted == SelectTop(b).faulted
    ensures |SelectTop(a).printed| == |SelectTop(b).printed|
    ensures forall i | 0 <= i < |SelectTop(a).printed| ::
              SelectTop(a).printed[i].freq == SelectTop(b).printed[i].freq
  {
    RankingFreqsAgree(a, b);
  }
}
