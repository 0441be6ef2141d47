/**
 packages/aws/src/overrides/incrementalCache/multi-tier-ddb-s3.ts: every instance keeps a bounded local cache in
 front of one S3 bucket and one DynamoDB metadata row per key.
 */
module MultiTier {
  import opened Wrappers
  import opened CacheTypes
  import opened TagTypes
  import opened LruModel

  datatype LocalEntry = LocalEntry(value: CachedFile, lastModified: nat)

  /** S3 dates an object no later than the write itself. */
  datatype S3Object = S3Object(value: CachedFile, lastModified: nat)

  datatype MetaRow = RevalidatedAt(at: nat) | DeletedMark

  datatype Remote = Remote(s3: map<string, S3Object>, meta: map<string, MetaRow>)

  /** `NotFound` is the error the S3 cache throws for a missing object. */
  datatype GetResult = Found(value: CachedFile, lastModified: nat) | Deleted | NotFound

  function ValueOf(result: GetResult): Option<CachedFile> {
    if result.Found? then Some(result.value) else None
  }

  /** What a caller of the S3 cache alone would read. */
  function S3Value(remote: Remote, key: string): Option<CachedFile> {
    if key in remote.s3 then Some(remote.s3[key].value) else None
  }

  datatype Config = Config(ttl: int, maxSize: int)

  predicate FreshLocally(entry: LocalEntry, now: nat, config: Config) {
    now - entry.lastModified < config.ttl
  }

  /** The metadata row does not contradict the local entry; a missing row counts as time 0. */
  predicate MetaAllows(remote: Remote, key: string, entry: LocalEntry) {
    (if key in remote.meta && remote.meta[key].RevalidatedAt? then remote.meta[key].at else 0) <= entry.lastModified
  }

  predicate MarkedDeleted(remote: Remote, key: string) {
    key in remote.meta && remote.meta[key].DeletedMark?
  }

  function ReadThrough(local: Lru<LocalEntry>, remote: Remote, key: string, config: Config)
    : (GetResult, Lru<LocalEntry>)
  {
    if key in remote.s3 then
      var item := remote.s3[key];
      (Found(item.value, item.lastModified),
       Put(local, key, LocalEntry(item.value, item.lastModified), config.maxSize))
    else (NotFound, local)
  }

  /** `metaAnswers` says whether DynamoDB answers when it is asked; if not, the source reads S3. */
  function Lookup(local: Lru<LocalEntry>, remote: Remote, key: string, now: nat, metaAnswers: bool, config: Config)
    : (GetResult, Lru<LocalEntry>)
  {
    var touched := Touched(local, key);
    if key !in local.data then ReadThrough(touched, remote, key, config)
    else
      var entry := local.data[key];
      if FreshLocally(entry, now, config) then (Found(entry.value, entry.lastModified), touched)
      else if metaAnswers && MarkedDeleted(remote, key) then (Deleted, Removed(touched, key))
      else if metaAnswers && MetaAllows(remote, key, entry) then (Found(entry.value, entry.lastModified), touched)
      else ReadThrough(touched, remote, key, config)
  }

  /** The lookup happened at some moment from `start` to `end`. */
  ghost predicate LookedUp(local: Lru<LocalEntry>, remote: Remote, key: string, start: nat, end: nat, metaAnswers: bool,
                           config: Config, result: GetResult, local': Lru<LocalEntry>) {
    exists now: nat :: start <= now <= end && Lookup(local, remote, key, now, metaAnswers, config) == (result, local')
  }

  function AfterSet(local: Lru<LocalEntry>, remote: Remote, key: string, value: CachedFile,
                    revalidatedAt: nat, reported: nat, config: Config): (Lru<LocalEntry>, Remote) {
    (Put(local, key, LocalEntry(value, revalidatedAt), config.maxSize),
     Remote(remote.s3[key := S3Object(value, reported)], remote.meta[key := RevalidatedAt(revalidatedAt)]))
  }

  /** The set took its timestamp after `start`, and S3 dated the object no later than `end`. */
  ghost predicate WasSet(local: Lru<LocalEntry>, remote: Remote, key: string, value: CachedFile, start: nat, end: nat,
                         config: Config, local': Lru<LocalEntry>, remote': Remote) {
    exists revalidatedAt: nat, reported: nat ::
      (start < revalidatedAt <= end && reported <= end
       && AfterSet(local, remote, key, value, revalidatedAt, reported, config) == (local', remote'))
  }

  function AfterDelete(local: Lru<LocalEntry>, remote: Remote, key: string): (Lru<LocalEntry>, Remote) {
    (Removed(local, key), Remote(remote.s3 - {key}, remote.meta[key := DeletedMark]))
  }

  class Backend {
    var s3: map<string, S3Object>
    var meta: map<string, MetaRow>

    function View(): Remote
      reads this
    {
      Remote(s3, meta)
    }

    /** The bucket picks the date it will report, which is not after the write. */
    method PutObject(key: string, value: CachedFile, clock: Clock) returns (ghost reported: nat)
      modifies this`s3, clock
      ensures old(clock.now) < clock.now && reported <= clock.now
      ensures s3 == old(s3)[key := S3Object(value, reported)]
    {
      var written := clock.DateNow();
      var date: nat :| date <= written;
      reported := date;
      s3 := s3[key := S3Object(value, date)];
    }
  }

  class MultiTierCache {
    const local: LRUCache<LocalEntry>
    const backend: Backend
    const clock: Clock
    const localCacheTTL: int

    constructor (maxCacheSize: int, localCacheTTL: int, backend: Backend, clock: Clock)
      ensures local.View() == EmptyLru() && fresh(local)
      ensures Settings() == Config(localCacheTTL, maxCacheSize)
      ensures this.backend == backend && this.clock == clock
    {
      local := new LRUCache(maxCacheSize);
      this.backend, this.clock, this.localCacheTTL := backend, clock, localCacheTTL;
    }

    function Settings(): Config { Config(localCacheTTL, local.maxSize) }

    method Get(key: string, metaAnswers: bool) returns (result: GetResult)
      modifies local, clock
      ensures old(clock.now) <= clock.now
      ensures LookedUp(old(local.View()), backend.View(), key, old(clock.now), clock.now, metaAnswers, Settings(),
                       result, local.View())
    {
      ghost var before := local.View();
      var entry := local.Get(key);
      ghost var now := clock.now;
      if entry.Some? {
        var time := clock.DateNow();
        now := time;
        if time - entry.value.lastModified < localCacheTTL {
          result := Found(entry.value.value, entry.value.lastModified);
          assert Lookup(before, backend.View(), key, now, metaAnswers, Settings()) == (result, local.View());
          return;
        }
        var hasBeenDeleted := metaAnswers && key in backend.meta && backend.meta[key].DeletedMark?;
        if hasBeenDeleted {
          local.Delete(key);
          result := Deleted;
          assert Lookup(before, backend.View(), key, now, metaAnswers, Settings()) == (result, local.View());
          return;
        }
        var lastModified := if key in backend.meta && backend.meta[key].RevalidatedAt? then backend.meta[key].at else 0;
        if metaAnswers && lastModified <= entry.value.lastModified {
          result := Found(entry.value.value, entry.value.lastModified);
          assert Lookup(before, backend.View(), key, now, metaAnswers, Settings()) == (result, local.View());
          return;
        }
      }
      if key in backend.s3 {
        var item := backend.s3[key];
        local.Set(key, LocalEntry(item.value, item.lastModified));
        result := Found(item.value, item.lastModified);
      } else {
        result := NotFound;
      }
      assert Lookup(before, backend.View(), key, now, metaAnswers, Settings()) == (result, local.View());
    }

    method Set(key: string, value: CachedFile)
      modifies local, backend, clock
      ensures WasSet(old(local.View()), old(backend.View()), key, value, old(clock.now), clock.now, Settings(),
                     local.View(), backend.View())
    {
      ghost var before, remote := local.View(), backend.View();
      var revalidatedAt := clock.DateNow();
      ghost var reported := backend.PutObject(key, value, clock);
      backend.meta := backend.meta[key := RevalidatedAt(revalidatedAt)];
      local.Set(key, LocalEntry(value, revalidatedAt));
      assert AfterSet(before, remote, key, value, revalidatedAt, reported, Settings()) ==
          (local.View(), backend.View());
    }

    method Delete(key: string)
      modifies local, backend
      ensures AfterDelete(old(local.View()), old(backend.View()), key) == (local.View(), backend.View())
    {
      backend.s3 := backend.s3 - {key};
      backend.meta := backend.meta[key := DeletedMark];
      local.Delete(key);
    }
  }

  // ---- Operations that do not overlap, on any number of instances

  datatype World = World(locals: seq<Lru<LocalEntry>>, remote: Remote, now: nat)

  datatype Op =
    | GetOp(i: nat, key: string, metaAnswers: bool)
    | SetOp(i: nat, key: string, value: CachedFile)
    | DeleteOp(i: nat, key: string)
    | RestartOp(i: nat)

  ghost predicate Next(w: World, op: Op, w': World, config: Config) {
    && op.i < |w.locals| == |w'.locals|
    && w.now <= w'.now
    && (forall i :: 0 <= i < |w.locals| && i != op.i ==> w'.locals[i] == w.locals[i])
    && match op
       case GetOp(i, key, metaAnswers) =>
         w'.remote == w.remote
         && exists result :: LookedUp(w.locals[i], w.remote, key, w.now, w'.now, metaAnswers, config, result,
                                      w'.locals[i])
       case SetOp(i, key, value) =>
         WasSet(w.locals[i], w.remote, key, value, w.now, w'.now, config, w'.locals[i], w'.remote)
       case DeleteOp(i, key) => (w'.locals[i], w'.remote) == AfterDelete(w.locals[i], w.remote, key)
       case RestartOp(i) => w'.locals[i] == EmptyLru() && w'.remote == w.remote
  }

  /** A local entry is S3's value unless the metadata row says otherwise. */
  ghost predicate EntryAgrees(remote: Remote, key: string, entry: LocalEntry) {
    MarkedDeleted(remote, key) || !MetaAllows(remote, key, entry) || S3Value(remote, key) == Some(entry.value)
  }

  ghost predicate LocalAgrees(local: Lru<LocalEntry>, remote: Remote, now: nat) {
    forall key :: key in local.data ==>
      local.data[key].lastModified <= now && EntryAgrees(remote, key, local.data[key])
  }

  ghost predicate RemoteConsistent(remote: Remote, now: nat) {
    && (forall key :: key in remote.s3 ==> remote.s3[key].lastModified <= now && !MarkedDeleted(remote, key))
    && (forall key :: key in remote.meta && remote.meta[key].RevalidatedAt? ==> remote.meta[key].at <= now)
  }

  ghost predicate Coherent(w: World, config: Config) {
    && RemoteConsistent(w.remote, w.now)
    && forall i :: 0 <= i < |w.locals| ==>
         GoodLocal(w.locals[i], w.remote, w.now, config)
  }

  ghost predicate GoodLocal(local: Lru<LocalEntry>, remote: Remote, now: nat, config: Config) {
    Bounded(local, config.maxSize) && LocalAgrees(local, remote, now)
  }

  lemma ReadThroughKeepsAgreement(local: Lru<LocalEntry>, remote: Remote, key: string, now: nat, config: Config)
    requires GoodLocal(local, remote, now, config) && RemoteConsistent(remote, now)
    ensures GoodLocal(ReadThrough(local, remote, key, config).1, remote, now, config)
  {
    if key in remote.s3 {
      var item := remote.s3[key];
      PutStaysBounded(local, key, LocalEntry(item.value, item.lastModified), config.maxSize);
    }
  }

  lemma LookupKeepsAgreement(local: Lru<LocalEntry>, remote: Remote, key: string, time: nat, now: nat,
                             metaAnswers: bool, config: Config)
    requires GoodLocal(local, remote, now, config) && RemoteConsistent(remote, now)
    ensures GoodLocal(Lookup(local, remote, key, time, metaAnswers, config).1, remote, now, config)
  {
    TouchedStaysBounded(local, key, config.maxSize);
    var touched := Touched(local, key);
    assert GoodLocal(touched, remote, now, config);
    if key in local.data && MarkedDeleted(remote, key) {
      RemovedKeepsAgreement(touched, remote, key, now, config);
    }
    ReadThroughKeepsAgreement(touched, remote, key, now, config);
  }

  lemma RemovedKeepsAgreement(local: Lru<LocalEntry>, remote: Remote, key: string, now: nat, config: Config)
    requires GoodLocal(local, remote, now, config)
    ensures GoodLocal(Removed(local, key), remote, now, config)
  {
    RemovedStaysBounded(local, key, config.maxSize);
  }

  ghost predicate EntriesEqual(a: Remote, b: Remote, key: string) {
    && (key in a.s3 <==> key in b.s3) && (key in a.s3 ==> a.s3[key] == b.s3[key])
    && (key in a.meta <==> key in b.meta) && (key in a.meta ==> a.meta[key] == b.meta[key])
  }

  /** Only `key` changed, and its metadata row now overrules every local entry from before. */
  ghost predicate Overrules(remote: Remote, remote': Remote, key: string, now: nat) {
    && (forall k :: k != key ==> EntriesEqual(remote, remote', k))
    && key in remote'.meta
    && match remote'.meta[key]
       case DeletedMark => true
       case RevalidatedAt(at) => at > now
  }

  lemma OverruledAgrees(local: Lru<LocalEntry>, remote: Remote, key: string, remote': Remote, now: nat, now': nat)
    requires LocalAgrees(local, remote, now) && now <= now' && Overrules(remote, remote', key, now)
    ensures LocalAgrees(local, remote', now')
  {
    forall k | k in local.data
      ensures EntryAgrees(remote', k, local.data[k])
    {
      if k != key {
        assert EntriesEqual(remote, remote', k);
      }
    }
  }

  lemma SetOverrules(remote: Remote, key: string, value: CachedFile, at: nat, reported: nat, now: nat, now': nat)
    requires RemoteConsistent(remote, now) && now < at <= now' && reported <= now'
    ensures var remote' := Remote(remote.s3[key := S3Object(value, reported)], remote.meta[key := RevalidatedAt(at)]);
            Overrules(remote, remote', key, now) && RemoteConsistent(remote', now')
  {
  }

  lemma DeleteOverrules(remote: Remote, key: string, now: nat)
    requires RemoteConsistent(remote, now)
    ensures var remote' := Remote(remote.s3 - {key}, remote.meta[key := DeletedMark]);
            Overrules(remote, remote', key, now) && RemoteConsistent(remote', now)
  {
  }

  lemma SetterAgrees(local: Lru<LocalEntry>, remote: Remote, key: string, value: CachedFile, at: nat, now: nat,
                     config: Config)
    requires GoodLocal(local, remote, now, config) && S3Value(remote, key) == Some(value) && at <= now
    ensures GoodLocal(Put(local, key, LocalEntry(value, at), config.maxSize), remote, now, config)
  {
    PutStaysBounded(local, key, LocalEntry(value, at), config.maxSize);
  }

  lemma SetKeepsCoherent(w: World, i: nat, key: string, value: CachedFile, w': World, config: Config)
    requires Coherent(w, config) && Next(w, SetOp(i, key, value), w', config)
    ensures Coherent(w', config)
  {
    var local, local' := w.locals[i], w'.locals[i];
    var at: nat, reported: nat :| w.now < at <= w'.now && reported <= w'.now
      && AfterSet(local, w.remote, key, value, at, reported, config) == (local', w'.remote);
    SetOverrules(w.remote, key, value, at, reported, w.now, w'.now);
    forall k | 0 <= k < |w.locals|
      ensures GoodLocal(w.locals[k], w'.remote, w'.now, config)
    {
      OverruledAgrees(w.locals[k], w.remote, key, w'.remote, w.now, w'.now);
    }
    SetterAgrees(local, w'.remote, key, value, at, w'.now, config);
  }

  lemma DeleteKeepsCoherent(w: World, i: nat, key: string, w': World, config: Config)
    requires Coherent(w, config) && Next(w, DeleteOp(i, key), w', config)
    ensures Coherent(w', config)
  {
    DeleteOverrules(w.remote, key, w.now);
    forall k | 0 <= k < |w.locals|
      ensures GoodLocal(w.locals[k], w'.remote, w'.now, config)
    {
      OverruledAgrees(w.locals[k], w.remote, key, w'.remote, w.now, w'.now);
    }
    RemovedStaysBounded(w.locals[i], key, config.maxSize);
    assert GoodLocal(w'.locals[i], w'.remote, w'.now, config);
  }

  lemma NextKeepsCoherent(w: World, op: Op, w': World, config: Config)
    requires Coherent(w, config) && Next(w, op, w', config)
    ensures Coherent(w', config)
  {
    match op
    case GetOp(i, key, metaAnswers) =>
      var result :| LookedUp(w.locals[i], w.remote, key, w.now, w'.now, metaAnswers, config, result, w'.locals[i]);
      var now: nat :| w.now <= now <= w'.now
                      && Lookup(w.locals[i], w.remote, key, now, metaAnswers, config) == (result, w'.locals[i]);
      LookupKeepsAgreement(w.locals[i], w.remote, key, now, w.now, metaAnswers, config);
    case SetOp(i, key, value) => SetKeepsCoherent(w, i, key, value, w', config);
    case DeleteOp(i, key) => DeleteKeepsCoherent(w, i, key, w', config);
    case RestartOp(i) =>
  }

  ghost predicate IsRun(worlds: seq<World>, ops: seq<Op>, config: Config) {
    && |worlds| == |ops| + 1
    && RemoteConsistent(worlds[0].remote, worlds[0].now)
    && (forall i :: 0 <= i < |worlds[0].locals| ==> worlds[0].locals[i] == EmptyLru())
    && forall k :: 0 <= k < |ops| ==> StepAt(worlds, ops, k, config)
  }

  ghost predicate StepAt(worlds: seq<World>, ops: seq<Op>, k: int, config: Config)
    requires 0 <= k < |ops| < |worlds|
  {
    Next(worlds[k], ops[k], worlds[k + 1], config)
  }

  lemma EmptyIsGood(remote: Remote, now: nat, config: Config)
    ensures GoodLocal(EmptyLru(), remote, now, config)
  {
  }

  lemma {:induction false} RunIsCoherent(worlds: seq<World>, ops: seq<Op>, config: Config, j: int)
    requires IsRun(worlds, ops, config) && 0 <= j < |worlds|
    ensures Coherent(worlds[j], config)
  {
    if j > 0 {
      RunIsCoherent(worlds, ops, config, j - 1);
      assert StepAt(worlds, ops, j - 1, config);
      NextKeepsCoherent(worlds[j - 1], ops[j - 1], worlds[j], config);
    } else {
      EmptyIsGood(worlds[0].remote, worlds[0].now, config);
    }
  }

  /**
   With no time to live, after any run of non-overlapping operations and restarts, a get on any instance has
   the value a read of S3 would give at that moment, whatever each local cache still holds.
   */
  lemma GetEqualsS3(worlds: seq<World>, ops: seq<Op>, config: Config, j: int, i: int, key: string, now: nat,
                    metaAnswers: bool)
    requires IsRun(worlds, ops, config) && config.ttl <= 0
    requires 0 <= j < |worlds| && 0 <= i < |worlds[j].locals| && worlds[j].now <= now
    ensures ValueOf(Lookup(worlds[j].locals[i], worlds[j].remote, key, now, metaAnswers, config).0)
         == S3Value(worlds[j].remote, key)
  {
    RunIsCoherent(worlds, ops, config, j);
  }
}
