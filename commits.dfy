/** Stage two of the pipeline: the merge commits of a fixed list of branches.

    For each branch in order, `git log --merges` prints one line per merge
    commit, "sha<NO-BREAK SPACE>date". Its output is split on newlines;
    each line is trimmed of white space and must split into exactly two
    fields. A sha already seen, on an earlier branch or earlier on the same
    branch, is skipped before its date is looked at; otherwise the date is
    parsed and the commit appended. Any failure aborts the whole walk. */
module Commits {
  import opened Results
  import opened Text

  /** A merge commit and its committer date (`commitInfo`). */
  datatype CommitInfo = CommitInfo(sha: string, date: int)

  /** The two fields of one output line, before the date is parsed. */
  datatype Entry = Entry(sha: string, raw: string)

  /** Runs git with the given arguments: its standard output when it exits
      with status 0, None otherwise. */
  type Git = seq<string> -> Option<string>

  /** RFC 3339 time parsing, which may fail. */
  type TimeParser = string -> Option<int>

  /** The field separator git is asked to print. */
  const Nbsp: char := '\U{A0}'

  /** The branches walked, in precedence order. */
  const Branches: seq<string> := [
    "main",
    "release-4.18",
    "release-4.17",
    "release-4.16",
    "release-4.15",
    "release-4.14",
    "release-4.13",
    "main-0.1.16-rehearsal-hotfix"
  ]

  /** The arguments of `git log` for one branch. Without a first commit no
      revision range is given, so git logs the current checkout. */
  function LogArgs(firstCommit: string, remote: string, branch: string): seq<string> {
    ["log", "--merges", "--pretty=format:%H\U{A0}%ad", "--date=iso8601-strict"]
    + if firstCommit != "" then [firstCommit + "^1..." + remote + "/" + branch] else []
  }

  /** Without a first commit every branch runs the very same query; with one,
      the range runs from the first commit's first parent to the remote branch. */
  lemma LogArgsRange(firstCommit: string, remote: string, branch: string, other: string)
    ensures firstCommit == "" ==> LogArgs(firstCommit, remote, branch) == LogArgs(firstCommit, remote, other)
    ensures firstCommit != "" ==>
      && |LogArgs(firstCommit, remote, branch)| == 5
      && LogArgs(firstCommit, remote, branch)[4] == firstCommit + "^1..." + remote + "/" + branch
  {
  }

  /** Reads one output line: trimmed, it must split on NO-BREAK SPACE into
      exactly two fields. Because trimming also removes NO-BREAK SPACE, both
      fields of a line that parses are non-empty. */
  function ParseLine(line: string): (r: Result<Entry>)
    ensures r.Err? ==> r.error == BadLine(TrimSpace(line))
    ensures r.Ok? ==>
      && TrimSpace(line) == r.value.sha + [Nbsp] + r.value.raw
      && r.value.sha != "" && r.value.raw != ""
      && Nbsp !in r.value.sha && Nbsp !in r.value.raw
  {
    var t := TrimSpace(line);
    var parts := Split(t, Nbsp);
    if |parts| != 2 then Err(BadLine(t))
    else
      SplitTwo(t, Nbsp);
      assert IsSpace(Nbsp);
      assert t[0] != Nbsp && t[|t| - 1] != Nbsp;
      Ok(Entry(parts[0], parts[1]))
  }

  /** A trimmed line made of two separator-free fields around one NO-BREAK
      SPACE parses into exactly those fields. */
  lemma ParseLineAccepts(line: string, sha: string, raw: string)
    requires TrimSpace(line) == sha + [Nbsp] + raw
    requires Nbsp !in sha && Nbsp !in raw
    ensures ParseLine(line) == Ok(Entry(sha, raw))
  {
    SplitJoin([sha, raw], Nbsp);
    assert Join([sha, raw], Nbsp) == sha + [Nbsp] + Join([raw], Nbsp);
  }

  /** The shas of a commit list (the `seen` set). */
  function Shas(cs: seq<CommitInfo>): set<string> {
    set c | c in cs :: c.sha
  }

  /** One line of the walk: skip a seen sha, else parse the date and append. */
  function Step(commits: seq<CommitInfo>, line: string, parseTime: TimeParser): Result<seq<CommitInfo>> {
    match ParseLine(line)
    case Err(e) => Err(e)
    case Ok(entry) =>
      if entry.sha in Shas(commits) then Ok(commits)
      else match parseTime(entry.raw)
        case None => Err(BadCommitTime(entry.raw))
        case Some(t) => Ok(commits + [CommitInfo(entry.sha, t)])
  }

  /** Step spelled out the way the source does it, field by field. */
  lemma StepUnfold(commits: seq<CommitInfo>, line: string, parseTime: TimeParser)
    ensures var t := TrimSpace(line);
      var parts := Split(t, Nbsp);
      Step(commits, line, parseTime) ==
        if |parts| != 2 then Err(BadLine(t))
        else if parts[0] in Shas(commits) then Ok(commits)
        else match parseTime(parts[1])
          case None => Err(BadCommitTime(parts[1]))
          case Some(d) => Ok(commits + [CommitInfo(parts[0], d)])
  {
  }

  /** The lines taken in order, starting from the commits in `start`; the
      first line that fails decides the error. */
  function Absorb(start: seq<CommitInfo>, lines: seq<string>, parseTime: TimeParser): Result<seq<CommitInfo>>
    decreases |lines|
  {
    if lines == [] then Ok(start)
    else match Absorb(start, lines[..|lines| - 1], parseTime)
      case Err(e) => Err(e)
      case Ok(commits) => Step(commits, lines[|lines| - 1], parseTime)
  }

  /** The branches taken in order: run git for each and absorb its lines. */
  function Walk(branches: seq<string>, firstCommit: string, remote: string, git: Git, parseTime: TimeParser): Result<seq<CommitInfo>>
    decreases |branches|
  {
    if branches == [] then Ok([])
    else match Walk(branches[..|branches| - 1], firstCommit, remote, git, parseTime)
      case Err(e) => Err(e)
      case Ok(commits) =>
        var args := LogArgs(firstCommit, remote, branches[|branches| - 1]);
        match git(args)
        case None => Err(GitFailed(args))
        case Some(out) => Absorb(commits, Split(out, '\n'), parseTime)
  }

  /** Once a prefix of the lines fails, the whole walk over them fails the same way. */
  lemma {:induction false} AbsorbErrSticks(start: seq<CommitInfo>, lines: seq<string>, k: nat, parseTime: TimeParser)
    requires k <= |lines|
    requires Absorb(start, lines[..k], parseTime).Err?
    ensures Absorb(start, lines, parseTime) == Absorb(start, lines[..k], parseTime)
    decreases |lines| - k
  {
    if k < |lines| {
      assert lines[..|lines| - 1][..k] == lines[..k];
      AbsorbErrSticks(start, lines[..|lines| - 1], k, parseTime);
    } else {
      assert lines[..k] == lines;
    }
  }

  /** Once a prefix of the branches fails, the whole walk fails the same way. */
  lemma {:induction false} WalkErrSticks(branches: seq<string>, k: nat, firstCommit: string, remote: string, git: Git, parseTime: TimeParser)
    requires k <= |branches|
    requires Walk(branches[..k], firstCommit, remote, git, parseTime).Err?
    ensures Walk(branches, firstCommit, remote, git, parseTime) == Walk(branches[..k], firstCommit, remote, git, parseTime)
    decreases |branches| - k
  {
    if k < |branches| {
      assert branches[..|branches| - 1][..k] == branches[..k];
      WalkErrSticks(branches[..|branches| - 1], k, firstCommit, remote, git, parseTime);
    } else {
      assert branches[..k] == branches;
    }
  }

  /** The inner loop of `mergeCommits`: the lines of one branch's output,
      appended to `commits` with `seen` kept equal to their shas. */
  method AbsorbLines(commits0: seq<CommitInfo>, seen0: set<string>, lines: seq<string>, parseTime: TimeParser)
    returns (r: Result<seq<CommitInfo>>, seen: set<string>)
    requires seen0 == Shas(commits0)
    ensures r == Absorb(commits0, lines, parseTime)
    ensures r.Ok? ==> seen == Shas(r.value)
  {
    var commits := commits0;
    seen := seen0;
    var i := 0;
    while i < |lines|
      invariant 0 <= i <= |lines|
      invariant Absorb(commits0, lines[..i], parseTime) == Ok(commits)
      invariant seen == Shas(commits)
    {
      assert lines[..i + 1][..i] == lines[..i];
      assert Absorb(commits0, lines[..i + 1], parseTime) == Step(commits, lines[i], parseTime);
      StepUnfold(commits, lines[i], parseTime);
      var line := TrimSpace(lines[i]);
      var parts := Split(line, Nbsp);
      if |parts| != 2 {
        r := Err(BadLine(line));
        AbsorbErrSticks(commits0, lines, i + 1, parseTime);
        return;
      }
      var sha, raw := parts[0], parts[1];
      if sha !in seen {
        var t := parseTime(raw);
        if t.None? {
          r := Err(BadCommitTime(raw));
          AbsorbErrSticks(commits0, lines, i + 1, parseTime);
          return;
        }
        ShasSnoc(commits, CommitInfo(sha, t.value));
        commits := commits + [CommitInfo(sha, t.value)];
        seen := seen + {sha};
      }
      i := i + 1;
    }
    assert lines[..|lines|] == lines;
    r := Ok(commits);
  }

  /** The outer loop of `mergeCommits` over a given branch list, keeping a
      `seen` set of shas next to the commit list it appends to. */
  method WalkBranches(branches: seq<string>, firstCommit: string, remote: string, git: Git, parseTime: TimeParser)
    returns (r: Result<seq<CommitInfo>>)
    ensures r == Walk(branches, firstCommit, remote, git, parseTime)
  {
    var commits: seq<CommitInfo> := [];
    var seen: set<string> := {};
    var b := 0;
    while b < |branches|
      invariant 0 <= b <= |branches|
      invariant Walk(branches[..b], firstCommit, remote, git, parseTime) == Ok(commits)
      invariant seen == Shas(commits)
    {
      var branch := branches[b];
      assert branches[..b + 1][..b] == branches[..b];
      var args := LogArgs(firstCommit, remote, branch);
      var out := git(args);
      if out.None? {
        r := Err(GitFailed(args));
        WalkErrSticks(branches, b + 1, firstCommit, remote, git, parseTime);
        return;
      }
      r, seen := AbsorbLines(commits, seen, Split(out.value, '\n'), parseTime);
      if r.Err? {
        WalkErrSticks(branches, b + 1, firstCommit, remote, git, parseTime);
        return;
      }
      commits := r.value;
      b := b + 1;
    }
    assert branches[..|branches|] == branches;
    r := Ok(commits);
  }

  /** `mergeCommits`: the walk over the fixed branch list. */
  method MergeCommits(firstCommit: string, remote: string, git: Git, parseTime: TimeParser)
    returns (r: Result<seq<CommitInfo>>)
    ensures r == Walk(Branches, firstCommit, remote, git, parseTime)
  {
    r := WalkBranches(Branches, firstCommit, remote, git, parseTime);
  }

  /** Absorbing two runs of lines is absorbing the first, then the second. */
  lemma {:induction false} AbsorbAppend(start: seq<CommitInfo>, a: seq<string>, b: seq<string>, parseTime: TimeParser)
    ensures Absorb(start, a + b, parseTime) ==
      match Absorb(start, a, parseTime)
      case Err(e) => Err(e)
      case Ok(c) => Absorb(c, b, parseTime)
    decreases |b|
  {
    if b == [] {
      assert a + b == a;
    } else {
      var b' := b[..|b| - 1];
      AbsorbAppend(start, a, b', parseTime);
      assert (a + b)[..|a + b| - 1] == a + b';
      assert (a + b)[|a + b| - 1] == b[|b| - 1];
    }
  }

  /** Every git run of the walk succeeded. */
  ghost predicate GitSucceeds(branches: seq<string>, firstCommit: string, remote: string, git: Git) {
    forall i | 0 <= i < |branches| :: git(LogArgs(firstCommit, remote, branches[i])).Some?
  }

  /** All output lines of all branches, in branch order and then line order. */
  ghost function AllLines(branches: seq<string>, firstCommit: string, remote: string, git: Git): seq<string>
    requires GitSucceeds(branches, firstCommit, remote, git)
    decreases |branches|
  {
    if branches == [] then []
    else
      var last := branches[|branches| - 1];
      AllLines(branches[..|branches| - 1], firstCommit, remote, git)
      + Split(git(LogArgs(firstCommit, remote, last)).value, '\n')
  }

  /** A walk that succeeds ran git successfully for every branch, and it is
      the walk over all their lines in one go: dedup spans the branches. */
  lemma {:induction false} WalkFlattens(branches: seq<string>, firstCommit: string, remote: string, git: Git, parseTime: TimeParser)
    ensures Walk(branches, firstCommit, remote, git, parseTime).Ok? ==> GitSucceeds(branches, firstCommit, remote, git)
    ensures GitSucceeds(branches, firstCommit, remote, git) ==>
      Walk(branches, firstCommit, remote, git, parseTime) == Absorb([], AllLines(branches, firstCommit, remote, git), parseTime)
    decreases |branches|
  {
    if branches != [] {
      var init := branches[..|branches| - 1];
      var last := branches[|branches| - 1];
      WalkFlattens(init, firstCommit, remote, git, parseTime);
      GitSucceedsSnoc(branches, firstCommit, remote, git);
      if GitSucceeds(branches, firstCommit, remote, git) {
        var out := git(LogArgs(firstCommit, remote, last)).value;
        AbsorbAppend([], AllLines(init, firstCommit, remote, git), Split(out, '\n'), parseTime);
      }
    }
  }

  /** Git succeeds on a branch list exactly when it succeeds on all but the
      last branch and on the last one. */
  lemma GitSucceedsSnoc(branches: seq<string>, firstCommit: string, remote: string, git: Git)
    requires branches != []
    ensures GitSucceeds(branches, firstCommit, remote, git) <==>
      && GitSucceeds(branches[..|branches| - 1], firstCommit, remote, git)
      && git(LogArgs(firstCommit, remote, branches[|branches| - 1])).Some?
  {
    var init := branches[..|branches| - 1];
    if GitSucceeds(branches, firstCommit, remote, git) {
      forall i | 0 <= i < |init| ensures git(LogArgs(firstCommit, remote, init[i])).Some? {
        assert init[i] == branches[i];
      }
    }
  }

  /** Every line reads as two fields. */
  ghost predicate AllParse(lines: seq<string>) {
    forall i | 0 <= i < |lines| :: ParseLine(lines[i]).Ok?
  }

  /** The fields of every line. */
  ghost function Entries(lines: seq<string>): (es: seq<Entry>)
    requires AllParse(lines)
    ensures |es| == |lines|
    ensures forall i | 0 <= i < |lines| :: ParseLine(lines[i]) == Ok(es[i])
  {
    seq(|lines|, i requires 0 <= i < |lines| => ParseLine(lines[i]).value)
  }

  function EntryShas(es: seq<Entry>): set<string> {
    set e | e in es :: e.sha
  }

  /** The position of the first entry with the given sha. */
  ghost function FirstIndex(es: seq<Entry>, sha: string): (i: nat)
    requires sha in EntryShas(es)
    ensures i < |es| && es[i].sha == sha
    ensures forall j | 0 <= j < i :: es[j].sha != sha
    decreases |es|
  {
    if es[0].sha == sha then 0
    else
      assert sha in EntryShas(es[1..]) by {
        var e :| e in es && e.sha == sha;
        var k :| 0 <= k < |es| && es[k] == e;
        assert es[1..][k - 1] == e;
      }
      1 + FirstIndex(es[1..], sha)
  }

  /** No entry before position `i` has the sha of the entry at `i`. */
  ghost predicate IsFirst(es: seq<Entry>, i: int)
    requires 0 <= i < |es|
  {
    forall j | 0 <= j < i :: es[j].sha != es[i].sha
  }

  /** The date of the first entry of every sha parses. */
  ghost predicate FirstDatesParse(es: seq<Entry>, parseTime: TimeParser) {
    forall i | 0 <= i < |es| && IsFirst(es, i) :: parseTime(es[i].raw).Some?
  }

  /** `r` holds one commit per sha of `es`, taken from the sha's first
      entry, in the order of those first entries. */
  ghost predicate FirstOccurrences(es: seq<Entry>, r: seq<CommitInfo>, parseTime: TimeParser) {
    && Shas(r) == EntryShas(es)
    && (forall k | 0 <= k < |r| ::
          r[k].sha in EntryShas(es)
          && var e := es[FirstIndex(es, r[k].sha)];
          parseTime(e.raw).Some? && r[k].date == parseTime(e.raw).value)
    && (forall k, k' | 0 <= k < k' < |r| ::
          r[k].sha in EntryShas(es) && r[k'].sha in EntryShas(es)
          && FirstIndex(es, r[k].sha) < FirstIndex(es, r[k'].sha))
  }

  /** No two commits share a sha. */
  ghost predicate NoDuplicates(r: seq<CommitInfo>) {
    forall k, k' | 0 <= k < k' < |r| :: r[k].sha != r[k'].sha
  }

  lemma FirstIndexSnoc(es: seq<Entry>, e: Entry, sha: string)
    requires sha in EntryShas(es)
    ensures sha in EntryShas(es + [e]) && FirstIndex(es + [e], sha) == FirstIndex(es, sha)
  {
    var i := FirstIndex(es, sha);
    var es' := es + [e];
    assert es'[i] == es[i];
    var i' := FirstIndex(es', sha);
    assert i' <= i;
    assert es'[i'] == es[i'];
  }

  lemma ShasSnoc(c: seq<CommitInfo>, x: CommitInfo)
    ensures Shas(c + [x]) == Shas(c) + {x.sha}
  {
    forall y | y in Shas(c + [x]) ensures y in Shas(c) + {x.sha} {
      var z :| z in c + [x] && z.sha == y;
      if z != x { assert z in c; }
    }
    forall y | y in Shas(c) ensures y in Shas(c + [x]) {
      var z :| z in c && z.sha == y;
      assert z in c + [x];
    }
  }

  lemma EntryShasSnoc(es: seq<Entry>, e: Entry)
    ensures EntryShas(es + [e]) == EntryShas(es) + {e.sha}
  {
    forall y | y in EntryShas(es + [e]) ensures y in EntryShas(es) + {e.sha} {
      var z :| z in es + [e] && z.sha == y;
      if z != e { assert z in es; }
    }
    forall y | y in EntryShas(es) ensures y in EntryShas(es + [e]) {
      var z :| z in es && z.sha == y;
      assert z in es + [e];
    }
  }

  /** One more line parses as a whole exactly when it parses on its own. */
  lemma AllParseSnoc(init: seq<string>, line: string)
    ensures AllParse(init + [line]) <==> AllParse(init) && ParseLine(line).Ok?
    ensures AllParse(init + [line]) ==> Entries(init + [line]) == Entries(init) + [ParseLine(line).value]
  {
    var lines := init + [line];
    if AllParse(init) && ParseLine(line).Ok? {
      forall i | 0 <= i < |lines| ensures ParseLine(lines[i]).Ok? {
        if i < |init| { assert lines[i] == init[i]; }
      }
    }
    if AllParse(lines) {
      forall i | 0 <= i < |init| ensures ParseLine(init[i]).Ok? {
        assert lines[i] == init[i];
      }
      assert lines[|init|] == line;
      var es := Entries(init) + [ParseLine(line).value];
      forall i | 0 <= i < |lines| ensures Entries(lines)[i] == es[i] {
        if i < |init| { assert lines[i] == init[i]; }
      }
    }
  }

  /** A new entry needs its date parsed exactly when its sha is new. */
  lemma FirstDatesParseSnoc(es: seq<Entry>, e: Entry, parseTime: TimeParser)
    ensures FirstDatesParse(es + [e], parseTime) <==>
      FirstDatesParse(es, parseTime) && (e.sha in EntryShas(es) || parseTime(e.raw).Some?)
  {
    var es' := es + [e];
    assert IsFirst(es', |es|) <==> e.sha !in EntryShas(es) by {
      if e.sha in EntryShas(es) {
        var j := FirstIndex(es, e.sha);
        assert es'[j].sha == es'[|es|].sha;
      }
      if !IsFirst(es', |es|) {
        var j :| 0 <= j < |es| && es'[j].sha == es'[|es|].sha;
        assert es[j] in es;
      }
    }
    forall i | 0 <= i < |es| ensures es'[i] == es[i] && (IsFirst(es', i) <==> IsFirst(es, i)) {
      assert forall j | 0 <= j < i :: es'[j] == es[j];
    }
  }

  /** A line whose sha was seen leaves the commits as they were. */
  lemma FirstOccurrencesSkip(es: seq<Entry>, e: Entry, c: seq<CommitInfo>, parseTime: TimeParser)
    requires FirstOccurrences(es, c, parseTime)
    requires e.sha in EntryShas(es)
    ensures FirstOccurrences(es + [e], c, parseTime)
  {
    EntryShasSnoc(es, e);
    forall x | x in EntryShas(es) ensures FirstIndex(es + [e], x) == FirstIndex(es, x) {
      FirstIndexSnoc(es, e, x);
    }
  }

  /** A line with a new sha and a date that parses adds its commit at the end. */
  lemma FirstOccurrencesAdd(es: seq<Entry>, e: Entry, c: seq<CommitInfo>, parseTime: TimeParser)
    requires FirstOccurrences(es, c, parseTime)
    requires e.sha !in EntryShas(es) && parseTime(e.raw).Some?
    ensures FirstOccurrences(es + [e], c + [CommitInfo(e.sha, parseTime(e.raw).value)], parseTime)
  {
    var es' := es + [e];
    var c' := c + [CommitInfo(e.sha, parseTime(e.raw).value)];
    EntryShasSnoc(es, e);
    ShasSnoc(c, CommitInfo(e.sha, parseTime(e.raw).value));
    forall x | x in EntryShas(es) ensures FirstIndex(es', x) == FirstIndex(es, x) {
      FirstIndexSnoc(es, e, x);
    }
    assert FirstIndex(es', e.sha) == |es|;
    forall k | 0 <= k < |c'|
      ensures c'[k].sha in EntryShas(es')
      ensures var f := es'[FirstIndex(es', c'[k].sha)];
        parseTime(f.raw).Some? && c'[k].date == parseTime(f.raw).value
    {
      if k < |c| {
        assert c'[k] == c[k];
        assert c[k].sha in Shas(c);
      }
    }
    forall k, k' | 0 <= k < k' < |c'|
      ensures c'[k].sha in EntryShas(es') && c'[k'].sha in EntryShas(es')
      ensures FirstIndex(es', c'[k].sha) < FirstIndex(es', c'[k'].sha)
    {
      assert c'[k] == c[k];
      assert c[k].sha in Shas(c);
      if k' < |c| { assert c'[k'] == c[k']; }
    }
  }

  /** The walk over lines from no commits succeeds exactly when every line
      has two fields and the first date of every sha parses (a later
      duplicate's date is never parsed). Its result then has one commit per
      sha, dated by and ordered by the sha's first line. */
  lemma {:induction false} AbsorbFromEmpty(lines: seq<string>, parseTime: TimeParser)
    ensures Absorb([], lines, parseTime).Ok? <==> AllParse(lines) && FirstDatesParse(Entries(lines), parseTime)
    ensures Absorb([], lines, parseTime).Ok? ==> AllParse(lines) && FirstOccurrences(Entries(lines), Absorb([], lines, parseTime).value, parseTime)
    decreases |lines|
  {
    if lines == [] {
      assert Entries(lines) == [];
      assert Shas([]) == {};
    } else {
      var init, line := lines[..|lines| - 1], lines[|lines| - 1];
      assert lines == init + [line];
      AbsorbFromEmpty(init, parseTime);
      AllParseSnoc(init, line);
      if AllParse(lines) {
        var es, e := Entries(init), ParseLine(line).value;
        FirstDatesParseSnoc(es, e, parseTime);
        var start := Absorb([], init, parseTime);
        if start.Ok? {
          if e.sha in EntryShas(es) {
            FirstOccurrencesSkip(es, e, start.value, parseTime);
          } else if parseTime(e.raw).Some? {
            FirstOccurrencesAdd(es, e, start.value, parseTime);
          }
        }
      }
    }
  }

  /** Dated and ordered by first entries means no sha occurs twice. */
  lemma FirstOccurrencesAreDistinct(es: seq<Entry>, r: seq<CommitInfo>, parseTime: TimeParser)
    requires FirstOccurrences(es, r, parseTime)
    ensures NoDuplicates(r)
  {
    forall k, k' | 0 <= k < k' < |r| ensures r[k].sha != r[k'].sha {
      assert FirstIndex(es, r[k].sha) < FirstIndex(es, r[k'].sha);
    }
  }

  /** What `mergeCommits` promises, for any branch list: the walk succeeds
      exactly when every git run succeeds, every output line has two fields
      and the first date of each sha parses; the commits it returns are then
      free of duplicates, one per sha, and each is dated by and placed
      according to that sha's first line in branch order, then line order. */
  lemma WalkSpec(branches: seq<string>, firstCommit: string, remote: string, git: Git, parseTime: TimeParser)
    ensures Walk(branches, firstCommit, remote, git, parseTime).Ok? <==>
      && GitSucceeds(branches, firstCommit, remote, git)
      && AllParse(AllLines(branches, firstCommit, remote, git))
      && FirstDatesParse(Entries(AllLines(branches, firstCommit, remote, git)), parseTime)
    ensures Walk(branches, firstCommit, remote, git, parseTime).Ok? ==>
      && GitSucceeds(branches, firstCommit, remote, git)
      && AllParse(AllLines(branches, firstCommit, remote, git))
      && var r := Walk(branches, firstCommit, remote, git, parseTime).value;
      && FirstOccurrences(Entries(AllLines(branches, firstCommit, remote, git)), r, parseTime)
      && NoDuplicates(r)
  {
    WalkFlattens(branches, firstCommit, remote, git, parseTime);
    if GitSucceeds(branches, firstCommit, remote, git) {
      var lines := AllLines(branches, firstCommit, remote, git);
      AbsorbFromEmpty(lines, parseTime);
      if Absorb([], lines, parseTime).Ok? {
        FirstOccurrencesAreDistinct(Entries(lines), Absorb([], lines, parseTime).value, parseTime);
      }
    }
  }

  /** Empty git output is one empty line, which has no two fields: a branch
      without merge commits aborts the walk. */
  lemma EmptyOutputAborts(start: seq<CommitInfo>, parseTime: TimeParser)
    ensures Absorb(start, Split("", '\n'), parseTime) == Err(BadLine(""))
  {
    assert Split("", '\n') == [""];
    assert Split("", Nbsp) == [""];
  }
}
