# Konflux build correlation: a Dafny model

This project models the core of the `konflux` tool in
`hack/tools/cmd/konflux/main.go`. The tool correlates the merge commits of
the HyperShift repository with the image tags published for them in the
container registry. It has three stages, and each one is modelled as an
imperative method. The page walk and the commit walk are proved equal to
functional specifications, and the properties the tool relies on are proved
as lemmas about those. The report method is proved directly against its
properties: one entry per commit, each agreeing with the tag map, sorted by
date, and a permutation of the joined entries.

- `publishedTags` (module `Tags`, `tags.dfy`) walks the pages of the
  registry's tag listing from page 1. It reads each page from the cache
  directory if the page's file exists. Otherwise it fetches the page and
  writes it to the cache. It then decodes the page and checks that the page
  declares the number that was asked for. Tags whose name is 40 bytes long
  go into a name-to-time map. The walk goes on while the page says more
  pages follow.
- `mergeCommits` (module `Commits`, `commits.dfy`) runs `git log --merges`
  for a fixed list of branches. It splits the output into lines, trims each
  line and splits it on NO-BREAK SPACE into a sha and a date. It appends
  every sha it has not seen before, with the parsed date.
- `summarize` (module `Summaries`, `summaries.dfy`) builds one report entry
  per commit and marks the entry published when the sha is a tag name. It
  then sorts the entries by commit date.

Two supporting modules hold shared pieces:

- `Results` (`results.dfy`) holds `Option`, `Result` and the error type.
  There is one error constructor per way a run can fail.
- `Text` (`text.dfy`) models the Go string functions the pipeline uses:
  - `len` on a string, which is the UTF-8 byte length;
  - `strings.Split` on one character;
  - `strings.TrimSpace`, with Go's `unicode.IsSpace` set, which includes
    NO-BREAK SPACE.

How the environment is represented:

- The cache directory and the registry are maps from page number to raw
  bytes.
- JSON decoding, RFC 1123 and RFC 3339 time parsing, and running git are
  function parameters that may fail (they return `Option`).
- Instants are integers.

At these points the model follows the code exactly:

- A fetched page is written to the cache before it is decoded and before
  its page number is checked. A page that fails either check stays in the
  cache, and every later run fails on it the same way (`Tags.RunAgain`).
- `sort.Slice` is not stable. The report is promised to be sorted and a
  permutation of the joined entries, and nothing about the order of equal
  dates.
- With an empty first commit, no revision range is passed to git. Every
  branch then runs the same query on the current checkout.
- Empty git output is one empty line. It fails the two-field check and
  aborts the walk.

## Model

| member | source | states |
|---|---|---|
| Tags.PublishedTags | hack/tools/cmd/konflux/main.go:102-168 | The page loop returns the same tag map or error, and leaves the same cache, as the page walk `Run` started at page 1 with an empty map. |
| Tags.AddTags | hack/tools/cmd/konflux/main.go:145-159 | The inner loop over one listing returns the same map or error as the specification `Accumulate`. |
| Tags.AccumulateSpec | hack/tools/cmd/konflux/main.go:145-154 | Adding one listing's tags fails exactly when some 40-byte tag has a time that does not parse. Names of any other length are skipped, even when their time is malformed. On success the keys are the old keys plus the 40-byte names. Each of those names maps to the time of its last occurrence (last write wins), and other keys keep their value. |
| Tags.AccumulateAppend | hack/tools/cmd/konflux/main.go:145-159 | Adding the tags of two listings in turn is the same as adding their concatenation, and the first error wins. |
| Tags.RunCache | hack/tools/cmd/konflux/main.go:111-135 | A cache entry that exists is never changed. A new entry holds the registry's bytes verbatim, for a page at or after the starting page. The starting page is stored whatever the outcome, even when decoding or the page check fails afterwards. |
| Tags.RunIgnoresCachedPages | hack/tools/cmd/konflux/main.go:113-131 | A cached page is never fetched: two registries that agree on every page the cache lacks give the same outcome and the same final cache. |
| Tags.RunStoresReached | hack/tools/cmd/konflux/main.go:110-165 | Only pages the walk reached are stored. A page added to the cache comes at or after the starting page, and every page before it is cached, declares its own number and says more pages follow. |
| Tags.RunSucceeds | hack/tools/cmd/konflux/main.go:108-110 | A successful walk read pages `page`..`last` in order. Each page declares its own number, and only the last one says no page follows. The tag map is the one built from those pages' tags in page order. |
| Tags.RunAgain | hack/tools/cmd/konflux/main.go:113-143 | Rerunning on the cache a walk left behind needs no registry and gives the same outcome, unless a fetch failed. A page that fails to decode or declares the wrong number keeps failing the same way on every later run. |
| Tags.PublishedTagsKeys | hack/tools/cmd/konflux/main.go:145-165 | On success the keys of the returned map are exactly the 40-byte names on pages 1..last, each maps to the time of its last listing on those pages, and every key is 40 bytes long. |
| Tags.WrongFirstPageIsKept | hack/tools/cmd/konflux/main.go:124-143 | A first page fetched into an empty cache that declares another page number aborts with WrongPage. Its bytes are already in the cache. |
| Commits.MergeCommits | hack/tools/cmd/konflux/main.go:214-268 | The walk over the fixed branch list returns the same commits or error as the specification `Walk` over `Branches`. |
| Commits.WalkBranches | hack/tools/cmd/konflux/main.go:217-266 | The outer loop over any branch list returns the same commits or error as `Walk`: branches in order, one git run each, and the first failure wins. |
| Commits.AbsorbLines | hack/tools/cmd/konflux/main.go:245-264 | The inner loop over one branch's lines agrees with `Absorb` when `seen` is the set of shas gathered so far. On success `seen` is still that set. |
| Commits.WalkSpec | hack/tools/cmd/konflux/main.go:216-263 | The walk succeeds exactly when every git run succeeds, every line has two fields, and the first date of every sha parses. The result then has no duplicate sha and exactly one commit per sha seen. Each commit is dated by, and ordered by, the sha's first line, in branch order and then line order. |
| Commits.AbsorbFromEmpty | hack/tools/cmd/konflux/main.go:245-263 | Over lines from no commits, the same if-and-only-if and first-occurrence result hold. A later duplicate's date is never parsed. |
| Commits.WalkFlattens | hack/tools/cmd/konflux/main.go:215-226 | A successful walk ran git successfully for every branch. It equals one walk over all branches' lines in sequence, so dedup spans branches. |
| Commits.AbsorbAppend | hack/tools/cmd/konflux/main.go:245-264 | Taking two runs of lines in turn equals taking their concatenation, and the first error wins. |
| Commits.FirstOccurrencesAreDistinct | hack/tools/cmd/konflux/main.go:252-263 | Commits that are ordered by the first lines of their shas share no sha. |
| Commits.ParseLine | hack/tools/cmd/konflux/main.go:246-251 | A line that does not split into two fields gives BadLine with the trimmed line. A line that parses is, once trimmed, `sha NBSP date` with both fields non-empty and free of NBSP. |
| Commits.ParseLineAccepts | hack/tools/cmd/konflux/main.go:246-251 | Conversely, a trimmed line made of two NBSP-free fields around one NBSP parses into exactly those fields. |
| Commits.LogArgsRange | hack/tools/cmd/konflux/main.go:229-237 | With an empty first commit every branch gets the same arguments. Otherwise the fifth argument is `first^1...remote/branch`. |
| Commits.EmptyOutputAborts | hack/tools/cmd/konflux/main.go:245-249 | Empty git output aborts with BadLine of the empty line. |
| Summaries.Summarize | hack/tools/cmd/konflux/main.go:286-305 | One entry per commit. The report is sorted by date and is a permutation of the joined entries. Every entry is published exactly when its sha is a tag name, and it has a publication time exactly then, namely that tag's time. |
| Summaries.SortByDate | hack/tools/cmd/konflux/main.go:303-305 | Sorting in place leaves the array ordered by date and a permutation of what it held. |
| Summaries.SortedPermutationUnique | hack/tools/cmd/konflux/main.go:303-305 | When no two dates are equal, any two date-sorted permutations of the same entries are equal. The instability of the sort only shows on ties. |
| Summaries.TwoCommitReport | hack/tools/cmd/konflux/main.go:288-305 | Take a published commit and an unpublished commit that is earlier. The report lists the unpublished one first, with no time, then the published one with its tag's time. |
| Text.ByteLength | hack/tools/cmd/konflux/main.go:146 | Go's `len` of a string lies between its number of characters and four times that. It equals the number of characters exactly when the string is ASCII. |
| Text.JoinSplit | hack/tools/cmd/konflux/main.go:245-247 | Joining the pieces of `strings.Split` with the separator gives back the input. |
| Text.SplitJoin | hack/tools/cmd/konflux/main.go:245-247 | Splitting the join of separator-free pieces gives the pieces back. |
| Text.SplitTwo | hack/tools/cmd/konflux/main.go:247-248 | A split into exactly two pieces means the input is the two pieces around one separator. |
| Text.TrimSpace | hack/tools/cmd/konflux/main.go:246 | The result neither starts nor ends with white space. It is the slice of the input outside of which there is only white space. |
| Text.TrimSpaceFixed | hack/tools/cmd/konflux/main.go:246 | Trimming leaves a string unchanged exactly when it is empty or has no white space at either end. |

## Left out

- `fetchTags` (HTTP request, bearer token, status check): the registry is a map of page bodies. A page it lacks is a failed fetch.
- File-system failures: failures of `os.MkdirAll`, `os.Stat` (other than "does not exist"), `os.ReadFile` and `os.WriteFile`. The cache is a map, and these I/O errors are not modelled.
- `json.Unmarshal` and `json.Marshal`: decoding is a function parameter that may fail. Writing `summary.json` is not modelled.
- `time.Parse` and `time.Format`: instants are integers and parsing is a function parameter. The report keeps instants instead of RFC 3339 strings.
- The git subprocess: git is a function parameter. The error message's stdout and stderr text is not modelled, and neither is context cancellation.
- Log messages: `log.Printf` has no observable effect on the result.
- `main`, the flags, `Validate` and signal handling: command-line plumbing.
- The `oldest` variable in `publishedTags`: it is computed and never used.
- `visualize.py`: plotting and floating-point statistics over library calls.
- Summaries.SortByDate: insertion sort stands in for Go's pattern-defeating quicksort. Only sortedness and permutation are promised, which is all `sort.Slice` guarantees, so the specific order of equal dates is not modelled.
- Strings: strings are sequences of Unicode scalar values, so git output and tag names are assumed to be valid UTF-8.
