/** The per-session cache of file reads (server/agents/session_workspace.py, 67-79 and 134-320). */
module ReadCache {
  import opened Wrappers

  const MAX_READ_CACHE_ENTRIES := 200

  /** A requested line range. */
  datatype Range = Range(offset: nat, limit: nat)

  /** Size and modification time of a file when it was read. */
  datatype Fingerprint = Fingerprint(mtime: int, size: int)

  datatype Entry = Entry(stamp: Fingerprint, slices: map<Range, string>, history: seq<Range>)

  /** One session's entries in insertion order. */
  datatype Cached = Cached(path: string, entry: Entry)
  type Cache = seq<Cached>

  // ---------------------------------------------------------------- ordered dictionary

  function Find(cache: Cache, path: string): Option<Entry> {
    if cache == [] then None else if cache[0].path == path then Some(cache[0].entry) else Find(cache[1..], path)
  }

  /** Assignment keeps the position of an existing key and appends a new one. */
  function Put(cache: Cache, path: string, entry: Entry): Cache {
    if cache == [] then [Cached(path, entry)]
    else if cache[0].path == path then [Cached(path, entry)] + cache[1..]
    else [cache[0]] + Put(cache[1..], path, entry)
  }

  function Drop(cache: Cache, path: string): Cache {
    if cache == [] then []
    else if cache[0].path == path then Drop(cache[1..], path)
    else [cache[0]] + Drop(cache[1..], path)
  }

  function Bound(cache: Cache, cap: nat): Cache {
    if |cache| > cap then cache[|cache| - cap..] else cache
  }

  lemma {:induction false} PutFinds(cache: Cache, path: string, entry: Entry, other: string)
    ensures Find(Put(cache, path, entry), other) == if other == path then Some(entry) else Find(cache, other)
    ensures |Put(cache, path, entry)| == |cache| + (if Find(cache, path).Some? then 0 else 1)
    ensures Find(cache, path).None? ==> Put(cache, path, entry) == cache + [Cached(path, entry)]
  {
    if cache != [] && cache[0].path != path { PutFinds(cache[1..], path, entry, other); }
  }

  lemma {:induction false} DropFinds(cache: Cache, path: string, other: string)
    ensures Find(Drop(cache, path), other) == if other == path then None else Find(cache, other)
    ensures |Drop(cache, path)| <= |cache|
  {
    if cache != [] { DropFinds(cache[1..], path, other); }
  }

  /** Keys are distinct: the cache is a dictionary. */
  ghost predicate Distinct(cache: Cache) {
    cache == [] || (Find(cache[1..], cache[0].path).None? && Distinct(cache[1..]))
  }

  lemma {:induction false} DistinctUpdates(cache: Cache, path: string, entry: Entry)
    requires Distinct(cache)
    ensures Distinct(Put(cache, path, entry)) && Distinct(Drop(cache, path))
  {
    if cache != [] {
      DistinctUpdates(cache[1..], path, entry);
      if cache[0].path != path {
        PutFinds(cache[1..], path, entry, cache[0].path);
        DropFinds(cache[1..], path, cache[0].path);
        assert Put(cache, path, entry)[1..] == Put(cache[1..], path, entry);
        assert Drop(cache, path)[1..] == Drop(cache[1..], path);
      } else {
        assert Put(cache, path, entry)[1..] == cache[1..];
      }
    }
  }

  lemma {:induction false} SuffixFinds(cache: Cache, k: nat, path: string)
    requires Distinct(cache) && k <= |cache|
    ensures Distinct(cache[k..])
    ensures Find(cache[k..], path).Some? ==> Find(cache, path) == Find(cache[k..], path)
    decreases k
  {
    if k > 0 {
      SuffixFinds(cache[1..], k - 1, path);
      SuffixFinds(cache[1..], k - 1, cache[0].path);
      assert cache[1..][k - 1..] == cache[k..];
    }
  }

  // ---------------------------------------------------------------- operations on one session

  function AddRange(history: seq<Range>, r: Range): seq<Range> {
    if r in history then history else history + [r]
  }

  function Store(cache: Cache, path: string, r: Range, output: string, stamp: Fingerprint): Cache {
    var old' := Find(cache, path);
    var entry := if old'.Some? && old'.value.stamp == stamp then old'.value else Entry(stamp, map[], []);
    var updated := entry.(slices := entry.slices[r := output], history := AddRange(entry.history, r));
    Bound(Put(cache, path, updated), MAX_READ_CACHE_ENTRIES)
  }

  datatype Lookup = Lookup(cache: Cache, result: Option<string>)

  /** A stale entry is evicted on the way. */
  function Get(cache: Cache, path: string, r: Range, stamp: Fingerprint): Lookup {
    match Find(cache, path)
    case None => Lookup(cache, None)
    case Some(entry) =>
      if entry.stamp != stamp then Lookup(Drop(cache, path), None)
      else Lookup(cache, if r in entry.slices then Some(entry.slices[r]) else None)
  }

  // ---------------------------------------------------------------- coherence over whole runs

  /** A read that was performed: the file had this fingerprint and this range rendered to this output. */
  datatype Read = Read(path: string, range: Range, stamp: Fingerprint, output: string)

  datatype Op =
    | CacheRead(read: Read)
    | Query(path: string, range: Range, stamp: Fingerprint)
    | Evict(path: string)
    | Reset

  function Apply(cache: Cache, op: Op): Cache {
    match op
    case CacheRead(r) => Store(cache, r.path, r.range, r.output, r.stamp)
    case Query(path, range, stamp) => Get(cache, path, range, stamp).cache
    case Evict(path) => Drop(cache, path)
    case Reset => []
  }

  function Run(ops: seq<Op>): Cache {
    if ops == [] then [] else Apply(Run(ops[..|ops| - 1]), ops[|ops| - 1])
  }

  /** A slice in the cache was stored by a read of the run with that fingerprint, after every eviction of
      the path, and no later read of the same range and fingerprint stored something else. */
  ghost predicate Witness(ops: seq<Op>, i: nat, path: string, r: Range, stamp: Fingerprint, output: string) {
    && i < |ops| && ops[i] == CacheRead(Read(path, r, stamp, output))
    && (forall j :: i < j < |ops| ==> ops[j] != Evict(path) && ops[j] != Reset)
    && (forall j :: i < j < |ops| && ops[j].CacheRead? && ops[j].read.path == path ==>
          ops[j].read.stamp == stamp && ops[j].read.range != r)
    && (forall j :: i < j < |ops| && ops[j].Query? && ops[j].path == path ==> ops[j].stamp == stamp)
  }

  ghost predicate EntryOk(entry: Entry) {
    && (forall r :: r in entry.slices <==> r in entry.history)
    && (forall i, j :: 0 <= i < j < |entry.history| ==> entry.history[i] != entry.history[j])
  }

  ghost predicate Coherent(ops: seq<Op>, cache: Cache) {
    && Distinct(cache) && |cache| <= MAX_READ_CACHE_ENTRIES
    && (forall p :: Find(cache, p).Some? ==> EntryOk(Find(cache, p).value))
    && (forall p, r :: Find(cache, p).Some? && r in Find(cache, p).value.slices ==>
          exists i :: Witness(ops, i, p, r, Find(cache, p).value.stamp, Find(cache, p).value.slices[r]))
  }

  lemma WitnessCarries(ops: seq<Op>, op: Op, i: nat, p: string, r: Range, stamp: Fingerprint, output: string)
    requires Witness(ops, i, p, r, stamp, output)
    requires op != Evict(p) && op != Reset
    requires op.CacheRead? && op.read.path == p ==> op.read.stamp == stamp && op.read.range != r
    requires op.Query? && op.path == p ==> op.stamp == stamp
    ensures Witness(ops + [op], i, p, r, stamp, output)
  {
    var all := ops + [op];
    forall j | i < j < |all|
      ensures all[j] != Evict(p) && all[j] != Reset
      ensures all[j].CacheRead? && all[j].read.path == p ==> all[j].read.stamp == stamp && all[j].read.range != r
      ensures all[j].Query? && all[j].path == p ==> all[j].stamp == stamp
    {
      if j < |ops| { assert all[j] == ops[j]; }
    }
  }

  lemma WitnessNew(ops: seq<Op>, read: Read)
    ensures Witness(ops + [CacheRead(read)], |ops|, read.path, read.range, read.stamp, read.output)
  {
  }

  /** What the cache holds for one path after an operation. */
  lemma FindAfter(cache: Cache, op: Op, p: string)
    requires Distinct(cache) && |cache| <= MAX_READ_CACHE_ENTRIES
    ensures Distinct(Apply(cache, op)) && |Apply(cache, op)| <= MAX_READ_CACHE_ENTRIES
    ensures var after := Find(Apply(cache, op), p);
      match op
      case Evict(path) => after == (if p == path then None else Find(cache, p))
      case Reset => after == None
      case Query(path, _, stamp) =>
        after == (if p == path && Find(cache, p).Some? && Find(cache, p).value.stamp != stamp then None else Find(cache, p))
      case CacheRead(read) =>
        after.Some? ==>
          if p != read.path then after == Find(cache, p)
          else
            var known := Find(cache, p).Some? && Find(cache, p).value.stamp == read.stamp;
            && after.value.stamp == read.stamp
            && after.value.slices == (if known then Find(cache, p).value.slices else map[])[read.range := read.output]
            && after.value.history == AddRange(if known then Find(cache, p).value.history else [], read.range)
  {
    match op
    case Reset =>
    case Evict(path) =>
      DistinctUpdates(cache, path, Entry(Fingerprint(0, 0), map[], []));
      DropFinds(cache, path, p);
    case Query(path, _, _) =>
      DistinctUpdates(cache, path, Entry(Fingerprint(0, 0), map[], []));
      DropFinds(cache, path, p);
    case CacheRead(read) =>
      var old' := Find(cache, read.path);
      var entry := if old'.Some? && old'.value.stamp == read.stamp then old'.value else Entry(read.stamp, map[], []);
      var updated := entry.(slices := entry.slices[read.range := read.output], history := AddRange(entry.history, read.range));
      var put := Put(cache, read.path, updated);
      PutFinds(cache, read.path, updated, p);
      DistinctUpdates(cache, read.path, updated);
      if |put| > MAX_READ_CACHE_ENTRIES { SuffixFinds(put, |put| - MAX_READ_CACHE_ENTRIES, p); }
  }

  lemma StepKeepsCoherent(ops: seq<Op>, cache: Cache, op: Op)
    requires Coherent(ops, cache)
    ensures Coherent(ops + [op], Apply(cache, op))
  {
    var after := Apply(cache, op);
    FindAfter(cache, op, "");
    forall p | Find(after, p).Some? ensures EntryOk(Find(after, p).value) {
      FindAfter(cache, op, p);
    }
    forall p, r | Find(after, p).Some? && r in Find(after, p).value.slices
      ensures exists i :: Witness(ops + [op], i, p, r, Find(after, p).value.stamp, Find(after, p).value.slices[r])
    {
      FindAfter(cache, op, p);
      if op.CacheRead? && op.read.path == p && op.read.range == r {
        WitnessNew(ops, op.read);
      } else {
        var entry := Find(cache, p).value;
        var i :| Witness(ops, i, p, r, entry.stamp, entry.slices[r]);
        WitnessCarries(ops, op, i, p, r, entry.stamp, entry.slices[r]);
      }
    }
  }

  lemma {:induction false} EveryRunIsCoherent(ops: seq<Op>)
    ensures Coherent(ops, Run(ops))
  {
    if ops != [] {
      var init := ops[..|ops| - 1];
      EveryRunIsCoherent(init);
      StepKeepsCoherent(init, Run(init), ops[|ops| - 1]);
      assert init + [ops[|ops| - 1]] == ops;
    }
  }

  /** Whatever a query is answered with was stored by a read of exactly that path and range, made while the
      file had exactly the fingerprint it has now, after the last eviction of the path, and it is the newest
      such read. The cache stays within its bound. */
  lemma AnswersAreFresh(ops: seq<Op>, path: string, r: Range, stamp: Fingerprint)
    ensures |Run(ops)| <= MAX_READ_CACHE_ENTRIES
    ensures Get(Run(ops), path, r, stamp).result.Some? ==>
      exists i :: Witness(ops, i, path, r, stamp, Get(Run(ops), path, r, stamp).result.value)
  {
    EveryRunIsCoherent(ops);
  }

  /** The entry just stored is never the one the bound evicts. */
  lemma StoredIsAnswered(ops: seq<Op>, read: Read)
    ensures Get(Run(ops + [CacheRead(read)]), read.path, read.range, read.stamp).result == Some(read.output)
  {
    EveryRunIsCoherent(ops);
    var cache := Run(ops);
    var all := ops + [CacheRead(read)];
    assert all[..|all| - 1] == ops;
    var old' := Find(cache, read.path);
    var entry := if old'.Some? && old'.value.stamp == read.stamp then old'.value else Entry(read.stamp, map[], []);
    var updated := entry.(slices := entry.slices[read.range := read.output], history := AddRange(entry.history, read.range));
    PutFinds(cache, read.path, updated, read.path);
    DistinctUpdates(cache, read.path, updated);
    var put := Put(cache, read.path, updated);
    if |put| > MAX_READ_CACHE_ENTRIES {
      var k := |put| - MAX_READ_CACHE_ENTRIES;
      assert put == cache + [Cached(read.path, updated)];
      LastFound(put, k);
      SuffixFinds(put, k, read.path);
    }
  }

  lemma {:induction false} LastFound(cache: Cache, k: nat)
    requires k < |cache|
    ensures Find(cache[k..], cache[|cache| - 1].path).Some?
    decreases |cache| - k
  {
    if k + 1 < |cache| {
      LastFound(cache, k + 1);
      assert cache[k..][1..] == cache[k + 1..];
    }
  }

  /** Storing a read leaves the entries of all other files alone, except that the oldest one goes when the cache
      is full and the file is new to it. */
  lemma StoreKeepsOthers(cache: Cache, path: string, r: Range, output: string, stamp: Fingerprint, p: string)
    requires Distinct(cache) && |cache| <= MAX_READ_CACHE_ENTRIES && p != path
    ensures Find(Store(cache, path, r, output, stamp), p) ==
      if |cache| == MAX_READ_CACHE_ENTRIES && Find(cache, path).None? && cache[0].path == p then None else Find(cache, p)
  {
    var old' := Find(cache, path);
    var entry := if old'.Some? && old'.value.stamp == stamp then old'.value else Entry(stamp, map[], []);
    var updated := entry.(slices := entry.slices[r := output], history := AddRange(entry.history, r));
    PutFinds(cache, path, updated, p);
    DistinctUpdates(cache, path, updated);
    var put := Put(cache, path, updated);
    if |put| > MAX_READ_CACHE_ENTRIES {
      assert put == cache + [Cached(path, updated)] && put[|put| - MAX_READ_CACHE_ENTRIES..] == put[1..];
      assert put[0] == cache[0];
    }
  }

  /** A query, and the eviction of a file, leave the entries of all other files alone. */
  lemma OthersAreKept(cache: Cache, path: string, r: Range, stamp: Fingerprint, p: string)
    requires p != path
    ensures Find(Get(cache, path, r, stamp).cache, p) == Find(cache, p)
    ensures Find(Drop(cache, path), p) == Find(cache, p) && Find(Drop(cache, path), path) == None
  {
    DropFinds(cache, path, p);
    DropFinds(cache, path, path);
  }

  // ---------------------------------------------------------------- covering ranges

  predicate Covers(h: Range, r: Range) { h.offset <= r.offset && h.offset + h.limit >= r.offset + r.limit }

  predicate IsCovered(history: seq<Range>, r: Range) {
    exists i :: 0 <= i < |history| && Covers(history[i], r)
  }

  predicate Holds(r: Range, line: nat) { r.offset <= line < r.offset + r.limit }

  /** A range covers another that is not empty exactly when it holds every line of it. */
  lemma CoversExactlyEveryLine(h: Range, r: Range)
    requires r.limit > 0
    ensures Covers(h, r) <==> forall line: nat :: Holds(r, line) ==> Holds(h, line)
  {
    if forall line: nat :: Holds(r, line) ==> Holds(h, line) {
      assert Holds(r, r.offset) && Holds(r, r.offset + r.limit - 1);
    }
  }

  /** The first earlier range that covers the whole request, if one single range does. */
  method CoveringSlice(history: seq<Range>, r: Range) returns (found: Option<Range>)
    ensures found.Some? ==> exists i :: 0 <= i < |history| && history[i] == found.value && Covers(history[i], r)
                              && forall j :: 0 <= j < i ==> !Covers(history[j], r)
    ensures found.None? <==> !IsCovered(history, r)
  {
    for i := 0 to |history|
      invariant forall j :: 0 <= j < i ==> !Covers(history[j], r)
    {
      if history[i].offset <= r.offset && history[i].offset + history[i].limit >= r.offset + r.limit {
        return Some(history[i]);
      }
    }
    return None;
  }

  /** What the turn loop does with a read: coverage of the range first, which evicts a stale entry, then the
      cached slice. */
  function Serve(cache: Cache, path: string, r: Range, stamp: Fingerprint): Lookup {
    match Find(cache, path)
    case None => Lookup(cache, None)
    case Some(entry) =>
      if entry.stamp != stamp then Lookup(Drop(cache, path), None)
      else if IsCovered(entry.history, r) then Get(cache, path, r, stamp)
      else Lookup(cache, None)
  }

  /** The loop's comment says that a read whose range is covered, also by overlap, is served from the cache. After
      any run a read is served exactly when the file is unchanged and that very range was read before; that other
      ranges cover it never matters. */
  lemma ServedExactlyWhenSameRangeWasRead(ops: seq<Op>, path: string, r: Range, stamp: Fingerprint)
    ensures var entry := Find(Run(ops), path);
      Serve(Run(ops), path, r, stamp).result.Some? <==>
        entry.Some? && entry.value.stamp == stamp && r in entry.value.history
  {
    EveryRunIsCoherent(ops);
    var entry := Find(Run(ops), path);
    if entry.Some? {
      assert EntryOk(entry.value);
      if r in entry.value.history {
        var i :| 0 <= i < |entry.value.history| && entry.value.history[i] == r;
        assert Covers(entry.value.history[i], r);
      }
    }
  }

  /** Concretely: lines 0 to 9 were read, lines 2 to 4 are covered by that and still not served. */
  lemma CoveredReadIsNotServed(path: string, stamp: Fingerprint, output: string)
    ensures var cache := Run([CacheRead(Read(path, Range(0, 10), stamp, output))]);
      && Find(cache, path).Some? && IsCovered(Find(cache, path).value.history, Range(2, 3))
      && Serve(cache, path, Range(2, 3), stamp).result == None
  {
    var op := CacheRead(Read(path, Range(0, 10), stamp, output));
    assert [op][..0] == [];
    assert Run([]) == [];
    var entry := Entry(stamp, map[Range(0, 10) := output], [Range(0, 10)]);
    assert Find([], path) == None && AddRange([], Range(0, 10)) == [Range(0, 10)];
    assert Entry(stamp, map[][Range(0, 10) := output], AddRange([], Range(0, 10))) == entry;
    assert Put([], path, entry) == [Cached(path, entry)];
    assert Store([], path, Range(0, 10), output, stamp) == [Cached(path, entry)];
    assert Covers(entry.history[0], Range(2, 3));
  }

  // ---------------------------------------------------------------- the class

  /** The process-wide store, one ordered cache per session. */
  class SessionReadCache {
    var caches: map<string, Cache>

    constructor ()
      ensures caches == map[]
    {
      caches := map[];
    }

    function CacheOf(session: string): Cache
      reads this
    {
      if session in caches then caches[session] else []
    }

    method BoundEntries(session: string)
      modifies this
      ensures CacheOf(session) == Bound(old(CacheOf(session)), MAX_READ_CACHE_ENTRIES)
      ensures forall other :: other != session ==> CacheOf(other) == old(CacheOf(other))
    {
      if session !in caches { return; }
      var entries := caches[session];
      while |entries| > MAX_READ_CACHE_ENTRIES
        invariant Bound(entries, MAX_READ_CACHE_ENTRIES) == Bound(old(caches)[session], MAX_READ_CACHE_ENTRIES)
      {
        entries := entries[1..];
      }
      caches := caches[session := entries];
    }

    method CacheFileRead(session: string, read: Read)
      modifies this
      ensures CacheOf(session) == Apply(old(CacheOf(session)), CacheRead(read))
      ensures forall other :: other != session ==> CacheOf(other) == old(CacheOf(other))
    {
      var cache := CacheOf(session);
      var found := Find(cache, read.path);
      var entry := Entry(read.stamp, map[], []);
      if found.Some? && found.value.stamp == read.stamp { entry := found.value; }
      entry := entry.(slices := entry.slices[read.range := read.output]);
      if read.range !in entry.history { entry := entry.(history := entry.history + [read.range]); }
      caches := caches[session := Put(cache, read.path, entry)];
      BoundEntries(session);
    }

    method GetCachedRead(session: string, path: string, r: Range, stamp: Fingerprint) returns (output: Option<string>)
      modifies this
      ensures output == Get(old(CacheOf(session)), path, r, stamp).result
      ensures CacheOf(session) == Apply(old(CacheOf(session)), Query(path, r, stamp))
      ensures forall other :: other != session ==> CacheOf(other) == old(CacheOf(other))
    {
      var cache := CacheOf(session);
      var found := Find(cache, path);
      if found.None? { return None; }
      if found.value.stamp != stamp {
        caches := caches[session := Drop(cache, path)];
        return None;
      }
      return if r in found.value.slices then Some(found.value.slices[r]) else None;
    }

    /** A mutation of the file invalidates it for every session at once. */
    method EvictReadCachePath(path: string)
      modifies this
      ensures forall session :: CacheOf(session) == Apply(old(CacheOf(session)), Evict(path))
    {
      caches := map session | session in caches :: Drop(caches[session], path);
    }

    method ResetSession(session: string)
      modifies this
      ensures CacheOf(session) == Apply(old(CacheOf(session)), Reset)
      ensures forall other :: other != session ==> CacheOf(other) == old(CacheOf(other))
    {
      caches := caches - {session};
    }
  }
}
