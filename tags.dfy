/** Stage one of the pipeline: collecting the published image tags.

    Pages of the registry's tag listing are numbered from 1. Each page is
    read from the cache directory when its file exists and otherwise
    fetched from the registry and written to the cache at once, before it is
    decoded or checked. The decoded listing must declare the page number
    that was asked for. Every tag whose name is 40 bytes long (a commit
    hash) goes into a name-to-time map, later pages overwriting earlier
    ones; other tags are skipped without looking at their time. The walk
    goes on while the listing says more pages follow. */
module Tags {
  import opened Results
  import opened Text

  newtype byte = x: int | 0 <= x < 256
  type Bytes = seq<byte>

  /** One entry of a tag listing (`tagOutput`). */
  datatype TagOutput = TagOutput(name: string, lastModified: string)

  /** One decoded page of the tag listing (`tagsOutput`). */
  datatype TagsOutput = TagsOutput(hasAdditional: bool, page: int, tags: seq<TagOutput>)

  /** The cache directory: the raw bytes of the file `<page>.json` by page number. */
  type Cache = map<int, Bytes>

  /** The registry API: the body it answers for each page it serves with
      status 200. A page it does not hold is a failed fetch. */
  type Registry = map<int, Bytes>

  /** JSON decoding of a page and RFC 1123 time parsing, both of which may fail. */
  type Decoder = Bytes -> Option<TagsOutput>
  type TimeParser = string -> Option<int>

  /** Byte length of a tag name that is a full commit hash. */
  const TagNameLength: nat := 40

  /** What a walk over the pages yields: the tag map or the error that
      stopped it, and the cache directory as the walk leaves it. */
  datatype Outcome = Outcome(tags: Result<map<string, int>>, cache: Cache)

  /** Adds the tags of one listing to `acc`, in listing order. */
  function Accumulate(acc: map<string, int>, ts: seq<TagOutput>, parseTime: TimeParser): Result<map<string, int>>
    decreases |ts|
  {
    if ts == [] then Ok(acc)
    else if ByteLength(ts[0].name) != TagNameLength then Accumulate(acc, ts[1..], parseTime)
    else match parseTime(ts[0].lastModified)
      case None => Err(BadTagTime(ts[0].name))
      case Some(t) => Accumulate(acc[ts[0].name := t], ts[1..], parseTime)
  }

  /** The names in `ts` that are 40 bytes long. */
  ghost function Names40(ts: seq<TagOutput>): set<string> {
    set i | 0 <= i < |ts| && ByteLength(ts[i].name) == TagNameLength :: ts[i].name
  }

  /** Every 40-byte tag in `ts` has a time that parses. */
  ghost predicate TimesParse(ts: seq<TagOutput>, parseTime: TimeParser) {
    forall i | 0 <= i < |ts| && ByteLength(ts[i].name) == TagNameLength :: parseTime(ts[i].lastModified).Some?
  }

  /** No tag after position `i` in `ts` has the name of the tag at `i`. */
  ghost predicate LastOfName(ts: seq<TagOutput>, i: int)
    requires 0 <= i < |ts|
  {
    forall j | i < j < |ts| :: ts[j].name != ts[i].name
  }

  /** `r` is what adding the tags of `ts` to `acc` should give: the keys are
      the old ones plus the 40-byte names, each 40-byte name carries the time
      of its last occurrence (last write wins), and keys that `ts` does not
      mention keep their value. */
  ghost predicate Accumulated(acc: map<string, int>, ts: seq<TagOutput>, parseTime: TimeParser, r: map<string, int>) {
    && r.Keys == acc.Keys + Names40(ts)
    && LastWins(ts, parseTime, r)
    && (forall n | n in acc && n !in Names40(ts) :: n in r && r[n] == acc[n])
  }

  /** Each 40-byte name of `ts` maps in `r` to the time of its last occurrence. */
  ghost predicate LastWins(ts: seq<TagOutput>, parseTime: TimeParser, r: map<string, int>) {
    forall i | 0 <= i < |ts| && ByteLength(ts[i].name) == TagNameLength && LastOfName(ts, i) ::
      parseTime(ts[i].lastModified).Some? && ts[i].name in r && r[ts[i].name] == parseTime(ts[i].lastModified).value
  }

  /** Accumulate fails exactly when some 40-byte tag has a time that does not
      parse; a malformed time on any other tag is never looked at. On success
      the map is the accumulated one. */
  lemma {:induction false} AccumulateSpec(acc: map<string, int>, ts: seq<TagOutput>, parseTime: TimeParser)
    ensures Accumulate(acc, ts, parseTime).Ok? <==> TimesParse(ts, parseTime)
    ensures Accumulate(acc, ts, parseTime).Ok? ==> Accumulated(acc, ts, parseTime, Accumulate(acc, ts, parseTime).value)
    decreases |ts|
  {
    if ts != [] {
      var h, rest := ts[0], ts[1..];
      TimesParseCons(ts, parseTime);
      if ByteLength(h.name) != TagNameLength {
        assert Accumulate(acc, ts, parseTime) == Accumulate(acc, rest, parseTime);
        AccumulateSpec(acc, rest, parseTime);
        if Accumulate(acc, ts, parseTime).Ok? {
          AccumulatedCons(acc, acc, ts, parseTime, Accumulate(acc, ts, parseTime).value);
        }
      } else if parseTime(h.lastModified).Some? {
        var acc' := acc[h.name := parseTime(h.lastModified).value];
        assert Accumulate(acc, ts, parseTime) == Accumulate(acc', rest, parseTime);
        AccumulateSpec(acc', rest, parseTime);
        if Accumulate(acc, ts, parseTime).Ok? {
          AccumulatedCons(acc, acc', ts, parseTime, Accumulate(acc, ts, parseTime).value);
        }
      }
    }
  }

  /** One step of Accumulated: if the rest of the listing turns the map
      after the first tag into `r`, the whole listing turns `acc` into `r`. */
  lemma AccumulatedCons(acc: map<string, int>, acc': map<string, int>, ts: seq<TagOutput>, parseTime: TimeParser, r: map<string, int>)
    requires ts != []
    requires ByteLength(ts[0].name) == TagNameLength ==>
      parseTime(ts[0].lastModified).Some? && acc' == acc[ts[0].name := parseTime(ts[0].lastModified).value]
    requires ByteLength(ts[0].name) != TagNameLength ==> acc' == acc
    requires Accumulated(acc', ts[1..], parseTime, r)
    ensures Accumulated(acc, ts, parseTime, r)
  {
    KeysCons(acc, acc', ts, r);
    KeptCons(acc, acc', ts, r);
    LastWinsCons(acc', ts, parseTime, r);
  }

  lemma KeysCons(acc: map<string, int>, acc': map<string, int>, ts: seq<TagOutput>, r: map<string, int>)
    requires ts != []
    requires acc'.Keys == acc.Keys + (if ByteLength(ts[0].name) == TagNameLength then {ts[0].name} else {})
    requires r.Keys == acc'.Keys + Names40(ts[1..])
    ensures r.Keys == acc.Keys + Names40(ts)
  {
    Names40Cons(ts);
  }

  lemma KeptCons(acc: map<string, int>, acc': map<string, int>, ts: seq<TagOutput>, r: map<string, int>)
    requires ts != []
    requires forall n | n in acc && (ByteLength(ts[0].name) != TagNameLength || n != ts[0].name) :: n in acc' && acc'[n] == acc[n]
    requires forall n | n in acc' && n !in Names40(ts[1..]) :: n in r && r[n] == acc'[n]
    ensures forall n | n in acc && n !in Names40(ts) :: n in r && r[n] == acc[n]
  {
    Names40Cons(ts);
  }

  lemma LastWinsCons(acc': map<string, int>, ts: seq<TagOutput>, parseTime: TimeParser, r: map<string, int>)
    requires ts != []
    requires ByteLength(ts[0].name) == TagNameLength ==>
      parseTime(ts[0].lastModified).Some? && ts[0].name in acc' && acc'[ts[0].name] == parseTime(ts[0].lastModified).value
    requires LastWins(ts[1..], parseTime, r)
    requires forall n | n in acc' && n !in Names40(ts[1..]) :: n in r && r[n] == acc'[n]
    ensures LastWins(ts, parseTime, r)
  {
    forall i | 0 <= i < |ts| && ByteLength(ts[i].name) == TagNameLength && LastOfName(ts, i)
      ensures parseTime(ts[i].lastModified).Some? && ts[i].name in r && r[ts[i].name] == parseTime(ts[i].lastModified).value
    {
      if i == 0 {
        LastWinsHead(acc', ts, parseTime, r);
      } else {
        LastWinsTail(ts, parseTime, r, i);
      }
    }
  }

  /** The first tag, when no later tag has its name, keeps the time it put into `acc'`. */
  lemma LastWinsHead(acc': map<string, int>, ts: seq<TagOutput>, parseTime: TimeParser, r: map<string, int>)
    requires ts != [] && ByteLength(ts[0].name) == TagNameLength && LastOfName(ts, 0)
    requires parseTime(ts[0].lastModified).Some? && ts[0].name in acc' && acc'[ts[0].name] == parseTime(ts[0].lastModified).value
    requires forall n | n in acc' && n !in Names40(ts[1..]) :: n in r && r[n] == acc'[n]
    ensures ts[0].name in r && r[ts[0].name] == parseTime(ts[0].lastModified).value
  {
    NotInNames40(ts[1..], ts[0].name);
  }

  /** A later tag that is the last of its name has its time in `r` by the rest of the listing. */
  lemma LastWinsTail(ts: seq<TagOutput>, parseTime: TimeParser, r: map<string, int>, i: int)
    requires 0 < i < |ts| && ByteLength(ts[i].name) == TagNameLength && LastOfName(ts, i)
    requires LastWins(ts[1..], parseTime, r)
    ensures parseTime(ts[i].lastModified).Some? && ts[i].name in r && r[ts[i].name] == parseTime(ts[i].lastModified).value
  {
    LastOfNameTail(ts, i);
  }

  lemma NotInNames40(ts: seq<TagOutput>, n: string)
    requires forall j | 0 <= j < |ts| :: ts[j].name != n
    ensures n !in Names40(ts)
  {
  }

  lemma Names40Cons(ts: seq<TagOutput>)
    requires ts != []
    ensures Names40(ts) == (if ByteLength(ts[0].name) == TagNameLength then {ts[0].name} else {}) + Names40(ts[1..])
  {
    var h, rest := ts[0], ts[1..];
    forall n | n in Names40(ts) ensures n in (if ByteLength(h.name) == TagNameLength then {h.name} else {}) + Names40(rest) {
      var i :| 0 <= i < |ts| && ByteLength(ts[i].name) == TagNameLength && ts[i].name == n;
      if i > 0 { assert rest[i - 1] == ts[i]; }
    }
    forall n | n in Names40(rest) ensures n in Names40(ts) {
      var i :| 0 <= i < |rest| && ByteLength(rest[i].name) == TagNameLength && rest[i].name == n;
      assert ts[i + 1] == rest[i];
    }
  }

  lemma TimesParseCons(ts: seq<TagOutput>, parseTime: TimeParser)
    requires ts != []
    ensures TimesParse(ts, parseTime) <==>
      (ByteLength(ts[0].name) == TagNameLength ==> parseTime(ts[0].lastModified).Some?) && TimesParse(ts[1..], parseTime)
  {
    var h, rest := ts[0], ts[1..];
    if TimesParse(ts, parseTime) {
      forall i | 0 <= i < |rest| && ByteLength(rest[i].name) == TagNameLength
        ensures parseTime(rest[i].lastModified).Some?
      {
        assert ts[i + 1] == rest[i];
      }
    }
    if (ByteLength(h.name) == TagNameLength ==> parseTime(h.lastModified).Some?) && TimesParse(rest, parseTime) {
      forall i | 0 <= i < |ts| && ByteLength(ts[i].name) == TagNameLength
        ensures parseTime(ts[i].lastModified).Some?
      {
        if i > 0 { assert rest[i - 1] == ts[i]; }
      }
    }
  }

  lemma LastOfNameTail(ts: seq<TagOutput>, i: int)
    requires 0 < i < |ts| && LastOfName(ts, i)
    ensures ts[1..][i - 1] == ts[i] && LastOfName(ts[1..], i - 1)
  {
    forall j | i - 1 < j < |ts[1..]| ensures ts[1..][j].name != ts[1..][i - 1].name {
      assert ts[1..][j] == ts[j + 1];
    }
  }

  /** Accumulating a concatenation is accumulating the first part, then the second. */
  lemma {:induction false} AccumulateAppend(acc: map<string, int>, a: seq<TagOutput>, b: seq<TagOutput>, parseTime: TimeParser)
    ensures Accumulate(acc, a + b, parseTime) ==
      match Accumulate(acc, a, parseTime)
      case Err(e) => Err(e)
      case Ok(m) => Accumulate(m, b, parseTime)
    decreases |a|
  {
    if a == [] {
      assert a + b == b;
    } else {
      assert (a + b)[0] == a[0] && (a + b)[1..] == a[1..] + b;
      var h := a[0];
      if ByteLength(h.name) != TagNameLength {
        AccumulateAppend(acc, a[1..], b, parseTime);
      } else if parseTime(h.lastModified).Some? {
        AccumulateAppend(acc[h.name := parseTime(h.lastModified).value], a[1..], b, parseTime);
      }
    }
  }

  /** The pages at or after `page` that the cache or the registry can still
      supply; every step of the walk uses one of them up. */
  function Pending(cache: Cache, registry: Registry, page: int): set<int> {
    set p | p in cache.Keys + registry.Keys && p >= page
  }

  lemma PendingShrinks(cache: Cache, stored: Cache, registry: Registry, page: int)
    requires page in cache || page in registry
    requires stored.Keys == cache.Keys + {page}
    ensures |Pending(stored, registry, page + 1)| < |Pending(cache, registry, page)|
  {
    assert Pending(stored, registry, page + 1) == Pending(cache, registry, page) - {page};
  }

  /** The page walk of `publishedTags` from page `page` on, with the tags
      gathered so far in `acc`: load the page from the cache or fetch and
      store it, decode it, check its page number, add its tags, and go on
      with the next page while the listing says there are more. */
  function Run(cache: Cache, registry: Registry, decode: Decoder, parseTime: TimeParser, page: int, acc: map<string, int>): Outcome
    decreases |Pending(cache, registry, page)|
  {
    if page !in cache && page !in registry then Outcome(Err(FetchFailed(page)), cache)
    else
      var raw := if page in cache then cache[page] else registry[page];
      var stored := if page in cache then cache else cache[page := raw];
      match decode(raw)
      case None => Outcome(Err(DecodeFailed(page)), stored)
      case Some(listing) =>
        if listing.page != page then Outcome(Err(WrongPage(page, listing.page)), stored)
        else match Accumulate(acc, listing.tags, parseTime)
          case Err(e) => Outcome(Err(e), stored)
          case Ok(acc') =>
            if listing.hasAdditional then
              PendingShrinks(cache, stored, registry, page);
              Run(stored, registry, decode, parseTime, page + 1, acc')
            else Outcome(Ok(acc'), stored)
  }

  /** `publishedTags`: walks the pages from 1 with an empty tag map, reading
      each page from `cache` or fetching it from `registry` and storing it;
      returns the tag map (or the error) and the cache as left behind. */
  method PublishedTags(cache0: Cache, registry: Registry, decode: Decoder, parseTime: TimeParser)
    returns (tags: Result<map<string, int>>, cache: Cache)
    ensures Outcome(tags, cache) == Run(cache0, registry, decode, parseTime, 1, map[])
  {
    cache := cache0;
    var acc: map<string, int> := map[];
    var page := 1;
    while true
      invariant Run(cache, registry, decode, parseTime, page, acc) == Run(cache0, registry, decode, parseTime, 1, map[])
      decreases |Pending(cache, registry, page)|
    {
      var raw: Bytes;
      var before := cache;
      if page !in cache {
        if page !in registry {
          tags := Err(FetchFailed(page));
          return;
        }
        raw := registry[page];
        cache := cache[page := raw];
      } else {
        raw := cache[page];
      }
      var decoded := decode(raw);
      if decoded.None? {
        tags := Err(DecodeFailed(page));
        return;
      }
      var listing := decoded.value;
      if listing.page != page {
        tags := Err(WrongPage(page, listing.page));
        return;
      }
      var added := AddTags(acc, listing.tags, parseTime);
      if added.Err? {
        tags := Err(added.error);
        return;
      }
      acc := added.value;
      if !listing.hasAdditional {
        tags := Ok(acc);
        return;
      }
      PendingShrinks(before, cache, registry, page);
      page := page + 1;
    }
  }

  /** The inner loop of `publishedTags`: adds the tags of one listing to
      `acc` in listing order, skipping names that are not 40 bytes long. */
  method AddTags(acc0: map<string, int>, ts: seq<TagOutput>, parseTime: TimeParser) returns (r: Result<map<string, int>>)
    ensures r == Accumulate(acc0, ts, parseTime)
  {
    var acc := acc0;
    var i := 0;
    while i < |ts|
      invariant 0 <= i <= |ts|
      invariant Accumulate(acc, ts[i..], parseTime) == Accumulate(acc0, ts, parseTime)
    {
      var tag := ts[i];
      assert ts[i..][1..] == ts[i + 1..];
      if ByteLength(tag.name) == TagNameLength {
        var t := parseTime(tag.lastModified);
        if t.None? {
          return Err(BadTagTime(tag.name));
        }
        acc := acc[tag.name := t.value];
      }
      i := i + 1;
    }
    return Ok(acc);
  }

  /** Page `p` of the cache holds a listing that declares page `p`. */
  ghost predicate Listed(cache: Cache, decode: Decoder, p: int) {
    p in cache && decode(cache[p]).Some? && decode(cache[p]).value.page == p
  }

  /** Pages `first` to `last` are in the cache, each declares its own number,
      and exactly the last of them says that no page follows. */
  ghost predicate Chain(cache: Cache, decode: Decoder, first: int, last: int) {
    && first <= last
    && forall p | first <= p <= last ::
         Listed(cache, decode, p) && decode(cache[p]).value.hasAdditional == (p < last)
  }

  /** The tags of pages `first` to `last`, in page order. */
  ghost function ChainTags(cache: Cache, decode: Decoder, first: int, last: int): seq<TagOutput>
    requires forall p | first <= p <= last :: Listed(cache, decode, p)
    decreases last - first
  {
    if first > last then []
    else
      assert Listed(cache, decode, first);
      decode(cache[first]).value.tags + ChainTags(cache, decode, first + 1, last)
  }

  /** The walk never changes a cache entry that exists, adds only pages it
      fetched (from `page` on, with the registry's bytes verbatim), and the
      page it starts on is stored whatever the outcome, also when decoding or
      the page check fails afterwards. */
  lemma {:induction false} RunCache(cache: Cache, registry: Registry, decode: Decoder, parseTime: TimeParser, page: int, acc: map<string, int>)
    ensures var o := Run(cache, registry, decode, parseTime, page, acc);
      && (forall p | p in cache :: p in o.cache && o.cache[p] == cache[p])
      && (forall p | p in o.cache && p !in cache :: p in registry && o.cache[p] == registry[p] && p >= page)
      && (page in cache || page in registry ==> page in o.cache)
    decreases |Pending(cache, registry, page)|
  {
    if page in cache || page in registry {
      var raw := if page in cache then cache[page] else registry[page];
      var stored := if page in cache then cache else cache[page := raw];
      var decoded := decode(raw);
      if decoded.Some? && decoded.value.page == page {
        var r := Accumulate(acc, decoded.value.tags, parseTime);
        if r.Ok? && decoded.value.hasAdditional {
          PendingShrinks(cache, stored, registry, page);
          RunCache(stored, registry, decode, parseTime, page + 1, r.value);
        }
      }
    }
  }

  /** A page that is in the cache is never fetched: the walk depends on the
      registry only through the pages the cache lacks. */
  lemma {:induction false} RunIgnoresCachedPages(cache: Cache, registry: Registry, registry': Registry, decode: Decoder, parseTime: TimeParser, page: int, acc: map<string, int>)
    requires forall p | p !in cache :: (p in registry <==> p in registry') && (p in registry ==> registry[p] == registry'[p])
    ensures Run(cache, registry, decode, parseTime, page, acc) == Run(cache, registry', decode, parseTime, page, acc)
    decreases |Pending(cache, registry, page)|
  {
    if page in cache || page in registry {
      var raw := if page in cache then cache[page] else registry[page];
      var stored := if page in cache then cache else cache[page := raw];
      var decoded := decode(raw);
      if decoded.Some? && decoded.value.page == page {
        var r := Accumulate(acc, decoded.value.tags, parseTime);
        if r.Ok? && decoded.value.hasAdditional {
          PendingShrinks(cache, stored, registry, page);
          RunIgnoresCachedPages(stored, registry, registry', decode, parseTime, page + 1, r.value);
        }
      }
    }
  }

  /** Every page from `first` up to, but not including, `p` is in the cache,
      declares its own number and says that more pages follow: the walk from
      `first` reaches page `p`. */
  ghost predicate Reaches(cache: Cache, decode: Decoder, first: int, p: int) {
    forall q | first <= q < p :: Listed(cache, decode, q) && decode(cache[q]).value.hasAdditional
  }

  /** The walk stores only pages it reached: a page added to the cache comes
      at or after `page`, and the walk from `page` reaches it. */
  lemma {:induction false} RunStoresReached(cache: Cache, registry: Registry, decode: Decoder, parseTime: TimeParser, page: int, acc: map<string, int>)
    ensures var o := Run(cache, registry, decode, parseTime, page, acc);
      forall p | p in o.cache && p !in cache :: p >= page && Reaches(o.cache, decode, page, p)
    decreases |Pending(cache, registry, page)|
  {
    if page in cache || page in registry {
      var o := Run(cache, registry, decode, parseTime, page, acc);
      var raw := if page in cache then cache[page] else registry[page];
      var stored := if page in cache then cache else cache[page := raw];
      var decoded := decode(raw);
      if decoded.Some? && decoded.value.page == page {
        var r := Accumulate(acc, decoded.value.tags, parseTime);
        if r.Ok? && decoded.value.hasAdditional {
          PendingShrinks(cache, stored, registry, page);
          RunStoresReached(stored, registry, decode, parseTime, page + 1, r.value);
          RunCache(stored, registry, decode, parseTime, page + 1, r.value);
          assert Listed(o.cache, decode, page) && decode(o.cache[page]).value.hasAdditional by {
            assert o.cache[page] == raw;
          }
          forall p | p in o.cache && p !in cache ensures p >= page && Reaches(o.cache, decode, page, p) {
            if p != page {
              assert p !in stored;
              assert Reaches(o.cache, decode, page + 1, p);
            }
          }
        }
      }
    }
  }

  /** A successful walk read a chain of pages `page`..`last` that the final
      cache holds, and the tag map is the one built from their tags in page
      order: pages are taken 1, 2, 3, ... and the walk stops at the first page
      that says no more pages follow. */
  lemma {:induction false} RunSucceeds(cache: Cache, registry: Registry, decode: Decoder, parseTime: TimeParser, page: int, acc: map<string, int>)
    requires Run(cache, registry, decode, parseTime, page, acc).tags.Ok?
    ensures var o := Run(cache, registry, decode, parseTime, page, acc);
      exists last :: Chain(o.cache, decode, page, last) && Accumulate(acc, ChainTags(o.cache, decode, page, last), parseTime) == o.tags
    decreases |Pending(cache, registry, page)|
  {
    var o := Run(cache, registry, decode, parseTime, page, acc);
    var raw := if page in cache then cache[page] else registry[page];
    var stored := if page in cache then cache else cache[page := raw];
    var listing := decode(raw).value;
    var acc' := Accumulate(acc, listing.tags, parseTime).value;
    if listing.hasAdditional {
      PendingShrinks(cache, stored, registry, page);
      RunSucceeds(stored, registry, decode, parseTime, page + 1, acc');
      RunCache(stored, registry, decode, parseTime, page + 1, acc');
      var last :| Chain(o.cache, decode, page + 1, last) && Accumulate(acc', ChainTags(o.cache, decode, page + 1, last), parseTime) == o.tags;
      assert o.cache[page] == raw;
      assert Chain(o.cache, decode, page, last);
      assert ChainTags(o.cache, decode, page, last) == listing.tags + ChainTags(o.cache, decode, page + 1, last);
      AccumulateAppend(acc, listing.tags, ChainTags(o.cache, decode, page + 1, last), parseTime);
    } else {
      assert Chain(o.cache, decode, page, page);
      assert ChainTags(o.cache, decode, page, page) == listing.tags + [];
      assert listing.tags + [] == listing.tags;
    }
  }

  /** Running again on the cache a walk left behind makes no fetch (the
      registry no longer matters) and gives the same outcome, unless the walk
      stopped because a fetch failed. This holds for a page that failed to
      decode or declared the wrong number too: it stays in the cache and the
      same error comes back on every later run. */
  lemma {:induction false} RunAgain(cache: Cache, registry: Registry, registry': Registry, decode: Decoder, parseTime: TimeParser, page: int, acc: map<string, int>)
    requires !Run(cache, registry, decode, parseTime, page, acc).tags.Err?
          || !Run(cache, registry, decode, parseTime, page, acc).tags.error.FetchFailed?
    ensures var o := Run(cache, registry, decode, parseTime, page, acc);
      Run(o.cache, registry', decode, parseTime, page, acc) == o
    decreases |Pending(cache, registry, page)|
  {
    var o := Run(cache, registry, decode, parseTime, page, acc);
    var raw := if page in cache then cache[page] else registry[page];
    var stored := if page in cache then cache else cache[page := raw];
    RunCache(cache, registry, decode, parseTime, page, acc);
    assert page in o.cache;
    var decoded := decode(raw);
    if decoded.Some? && decoded.value.page == page {
      var r := Accumulate(acc, decoded.value.tags, parseTime);
      if r.Ok? && decoded.value.hasAdditional {
        PendingShrinks(cache, stored, registry, page);
        RunCache(stored, registry, decode, parseTime, page + 1, r.value);
        RunAgain(stored, registry, registry', decode, parseTime, page + 1, r.value);
        assert o.cache[page] == raw;
      }
    }
  }

  /** Only 40-byte names end up in the map `publishedTags` returns, whatever
      the other tags hold, and each carries the time of its last listing
      among pages 1..last. */
  lemma PublishedTagsKeys(cache: Cache, registry: Registry, decode: Decoder, parseTime: TimeParser)
    requires Run(cache, registry, decode, parseTime, 1, map[]).tags.Ok?
    ensures var o := Run(cache, registry, decode, parseTime, 1, map[]);
      exists last :: Chain(o.cache, decode, 1, last)
        && o.tags.value.Keys == Names40(ChainTags(o.cache, decode, 1, last))
        && LastWins(ChainTags(o.cache, decode, 1, last), parseTime, o.tags.value)
    ensures forall n | n in Run(cache, registry, decode, parseTime, 1, map[]).tags.value :: ByteLength(n) == TagNameLength
  {
    var o := Run(cache, registry, decode, parseTime, 1, map[]);
    RunSucceeds(cache, registry, decode, parseTime, 1, map[]);
    var last :| Chain(o.cache, decode, 1, last) && Accumulate(map[], ChainTags(o.cache, decode, 1, last), parseTime) == o.tags;
    var ts := ChainTags(o.cache, decode, 1, last);
    AccumulateSpec(map[], ts, parseTime);
    assert o.tags.value.Keys == Names40(ts);
    forall n | n in o.tags.value ensures ByteLength(n) == TagNameLength {
      assert n in Names40(ts);
    }
  }

  /** A page fetched into an empty cache that declares another page number
      aborts the walk, and its bytes have already been written to the cache. */
  lemma WrongFirstPageIsKept(registry: Registry, decode: Decoder, parseTime: TimeParser)
    requires 1 in registry && decode(registry[1]).Some? && decode(registry[1]).value.page != 1
    ensures Run(map[], registry, decode, parseTime, 1, map[])
         == Outcome(Err(WrongPage(1, decode(registry[1]).value.page)), map[1 := registry[1]])
  {
  }
}
