/** Stage three of the pipeline: joining the commits with the published tags
    and ordering the report by commit date.

    Each commit gives one report entry; it is published exactly when its
    sha is a tag name, and then carries that tag's time. The entries are
    sorted in place by commit date with Go's `sort.Slice`, which is not
    stable: the report is sorted and a permutation of the joined entries,
    and nothing is promised about the order of entries with equal dates. */
module Summaries {
  import opened Results
  import opened Commits

  /** One report entry (`summary`): the commit, its date, whether an image
      tag was published for it and, only then, the tag's time. */
  datatype Summary = Summary(commit: string, date: int, published: bool, publishedTime: Option<int>)

  /** The report entry of one commit. */
  function SummaryOf(tags: map<string, int>, c: CommitInfo): Summary {
    var published := c.sha in tags;
    Summary(c.sha, c.date, published, if published then Some(tags[c.sha]) else None)
  }

  /** The entries of `commits`, one each, in commit order (before sorting). */
  function JoinAll(tags: map<string, int>, commits: seq<CommitInfo>): seq<Summary> {
    seq(|commits|, k requires 0 <= k < |commits| => SummaryOf(tags, commits[k]))
  }

  /** An entry agrees with the tag map: it is published exactly when its
      commit is a tag name, and it has a publication time exactly when it is
      published, namely the time of that tag. */
  ghost predicate Correlated(tags: map<string, int>, s: Summary) {
    && (s.published <==> s.commit in tags)
    && (s.publishedTime.Some? <==> s.published)
    && (s.published ==> s.publishedTime.value == tags[s.commit])
  }

  predicate SortedByDate(s: seq<Summary>) {
    forall i, j | 0 <= i < j < |s| :: s[i].date <= s[j].date
  }

  /** Sorts the entries by date in place (the `sort.Slice` call). Only
      sortedness and permutation are promised, as `sort.Slice` is unstable. */
  method SortByDate(a: array<Summary>)
    modifies a
    ensures SortedByDate(a[..])
    ensures multiset(a[..]) == old(multiset(a[..]))
  {
    var i := 0;
    while i < a.Length
      invariant 0 <= i <= a.Length
      invariant SortedByDate(a[..i])
      invariant multiset(a[..]) == old(multiset(a[..]))
    {
      InsertLast(a, i);
      i := i + 1;
    }
    assert a[..a.Length] == a[..];
  }

  /** One insertion step: moves `a[i]` down into the sorted prefix `a[..i]`
      by adjacent swaps, so that `a[..i + 1]` is sorted. */
  method InsertLast(a: array<Summary>, i: nat)
    requires i < a.Length && SortedByDate(a[..i])
    modifies a
    ensures SortedByDate(a[..i + 1])
    ensures multiset(a[..]) == old(multiset(a[..]))
  {
    InsertionStarts(a[..], i);
    var j := i;
    while j > 0 && a[j - 1].date > a[j].date
      invariant 0 <= j <= i
      invariant Inserting(a[..], i, j)
      invariant multiset(a[..]) == old(multiset(a[..]))
    {
      ghost var s := a[..];
      a[j - 1], a[j] := a[j], a[j - 1];
      assert a[..] == Swapped(s, j);
      SwapStep(s, i, j);
      j := j - 1;
    }
    InsertionEnds(a[..], i, j);
  }

  /** While `s[j]` travels down: `s[..i + 1]` is sorted apart from position
      `j`, and `s[j]` is at most everything after it up to `i`. */
  ghost predicate Inserting(s: seq<Summary>, i: int, j: int)
    requires 0 <= j <= i < |s|
  {
    && (forall x, y | 0 <= x < y <= i && x != j && y != j :: s[x].date <= s[y].date)
    && (forall y | j < y <= i :: s[j].date <= s[y].date)
  }

  /** `s` with the entries at `j - 1` and `j` exchanged. */
  function Swapped(s: seq<Summary>, j: int): (t: seq<Summary>)
    requires 0 < j < |s|
    ensures multiset(t) == multiset(s)
  {
    s[j - 1 := s[j]][j := s[j - 1]]
  }

  lemma InsertionStarts(s: seq<Summary>, i: int)
    requires 0 <= i < |s| && SortedByDate(s[..i])
    ensures Inserting(s, i, i)
  {
    forall x, y | 0 <= x < y < i ensures s[x].date <= s[y].date {
      assert s[..i][x] == s[x] && s[..i][y] == s[y];
    }
  }

  lemma SwapStep(s: seq<Summary>, i: int, j: int)
    requires 0 < j <= i < |s| && Inserting(s, i, j) && s[j - 1].date > s[j].date
    ensures Inserting(Swapped(s, j), i, j - 1)
  {
  }

  lemma InsertionEnds(s: seq<Summary>, i: int, j: int)
    requires 0 <= j <= i < |s| && Inserting(s, i, j)
    requires j == 0 || s[j - 1].date <= s[j].date
    ensures SortedByDate(s[..i + 1])
  {
    forall x, y | 0 <= x < y <= i ensures s[x].date <= s[y].date {
      if x == j {
      } else if y == j {
        assert s[x].date <= s[j - 1].date;
      }
    }
  }

  /** `summarize`: one entry per commit, joined with the tag map, then sorted
      by commit date. The report is sorted, is a permutation of the joined
      entries, and every entry agrees with the tag map. */
  method Summarize(tags: map<string, int>, commits: seq<CommitInfo>) returns (summaries: seq<Summary>)
    ensures |summaries| == |commits|
    ensures SortedByDate(summaries)
    ensures multiset(summaries) == multiset(JoinAll(tags, commits))
    ensures forall k | 0 <= k < |summaries| :: Correlated(tags, summaries[k])
  {
    var unsorted: seq<Summary> := [];
    var i := 0;
    while i < |commits|
      invariant 0 <= i <= |commits|
      invariant |unsorted| == i
      invariant forall k | 0 <= k < i :: unsorted[k] == SummaryOf(tags, commits[k])
    {
      var c := commits[i];
      var published := c.sha in tags;
      var s := Summary(c.sha, c.date, published, None);
      if published {
        s := s.(publishedTime := Some(tags[c.sha]));
      }
      unsorted := unsorted + [s];
      i := i + 1;
    }
    assert unsorted == JoinAll(tags, commits);
    var a := new Summary[|unsorted|](k requires 0 <= k < |unsorted| => unsorted[k]);
    assert a[..] == unsorted;
    SortByDate(a);
    summaries := a[..];
    forall k | 0 <= k < |summaries| ensures Correlated(tags, summaries[k]) {
      assert summaries[k] in multiset(unsorted);
      var m :| 0 <= m < |unsorted| && unsorted[m] == summaries[k];
    }
  }

  /** No two entries share a date. */
  ghost predicate DistinctDates(s: seq<Summary>) {
    forall i, j | 0 <= i < j < |s| :: s[i].date != s[j].date
  }

  /** Two date-sorted permutations of the same entries, the first with
      distinct dates, start with the same entry: the one with the least date. */
  lemma SortedHeadsAgree(s: seq<Summary>, t: seq<Summary>)
    requires s != [] && SortedByDate(s) && SortedByDate(t)
    requires multiset(s) == multiset(t)
    requires DistinctDates(s)
    ensures t != [] && s[0] == t[0]
  {
    assert s[0] in multiset(t);
    var k :| 0 <= k < |t| && t[k] == s[0];
    assert t[0] in multiset(s);
    var m :| 0 <= m < |s| && s[m] == t[0];
    assert t[0].date <= t[k].date;
    assert s[0].date <= s[m].date;
  }

  lemma MultisetTail(s: seq<Summary>)
    requires s != []
    ensures multiset(s[1..]) == multiset(s) - multiset{s[0]}
  {
    assert s == [s[0]] + s[1..];
  }

  /** When no two commits share a date, the sorted report is fully
      determined: any two date-sorted permutations of the same entries are
      equal. Only ties are left to the unstable sort. */
  lemma {:induction false} SortedPermutationUnique(s: seq<Summary>, t: seq<Summary>)
    requires SortedByDate(s) && SortedByDate(t)
    requires multiset(s) == multiset(t)
    requires DistinctDates(s)
    ensures s == t
    decreases |s|
  {
    if s == [] {
      assert |multiset(t)| == 0;
    } else {
      SortedHeadsAgree(s, t);
      MultisetTail(s);
      MultisetTail(t);
      var s', t' := s[1..], t[1..];
      assert SortedByDate(s') by {
        forall i, j | 0 <= i < j < |s'| ensures s'[i].date <= s'[j].date {
          assert s'[i] == s[i + 1] && s'[j] == s[j + 1];
        }
      }
      assert SortedByDate(t') by {
        forall i, j | 0 <= i < j < |t'| ensures t'[i].date <= t'[j].date {
          assert t'[i] == t[i + 1] && t'[j] == t[j + 1];
        }
      }
      assert DistinctDates(s') by {
        forall i, j | 0 <= i < j < |s'| ensures s'[i].date != s'[j].date {
          assert s'[i] == s[i + 1] && s'[j] == s[j + 1];
        }
      }
      SortedPermutationUnique(s', t');
      assert s == [s[0]] + s' && t == [t[0]] + t';
    }
  }

  /** The two-commit example: a later published commit and an earlier
      unpublished one come out earlier first, each with its publication data. */
  lemma TwoCommitReport(tags: map<string, int>, c1: CommitInfo, c2: CommitInfo, report: seq<Summary>)
    requires c1.sha in tags && c2.sha !in tags && c2.date < c1.date
    requires SortedByDate(report) && multiset(report) == multiset(JoinAll(tags, [c1, c2]))
    ensures report == [Summary(c2.sha, c2.date, false, None), Summary(c1.sha, c1.date, true, Some(tags[c1.sha]))]
  {
    var expected := [Summary(c2.sha, c2.date, false, None), Summary(c1.sha, c1.date, true, Some(tags[c1.sha]))];
    assert JoinAll(tags, [c1, c2]) == [expected[1], expected[0]];
    assert multiset(expected) == multiset(JoinAll(tags, [c1, c2]));
    SortedPermutationUnique(expected, report);
  }
}
