/**
 The multi-tier cache with overlapping operations: every read or write of S3, DynamoDB and a local cache is a
 step of its own, operations interleave freely, and any of them may be abandoned between two steps.
 */
module MultiTierSteps {
  import opened Wrappers
  import opened CacheTypes
  import opened LruModel
  import opened MultiTier

  /** A completed S3 write (`Some`) or delete (`None`), in the order S3 applied them. */
  datatype Event = Event(at: nat, key: string, value: Option<CachedFile>)

  datatype Pending =
    | SetToS3(i: nat, key: string, value: CachedFile, revalidatedAt: nat)
    | SetToMeta(i: nat, key: string, value: CachedFile, revalidatedAt: nat)
    | SetToLocal(i: nat, key: string, value: CachedFile, revalidatedAt: nat)
    | DeleteInS3(i: nat, key: string)
    | DeleteInMeta(i: nat, key: string)
    | DeleteInLocal(i: nat, key: string)
    | GetFromMeta(i: nat, key: string, entry: LocalEntry)
    | GetFromS3(i: nat, key: string)
    | GetToLocal(i: nat, key: string, item: S3Object)

  /** `pending` maps the number of each running operation to what it does next. */
  datatype System = System(now: nat, locals: seq<Lru<LocalEntry>>, remote: Remote,
                           history: seq<Event>, pending: map<nat, Pending>)

  /**
   `Advance` runs the next step of an operation, which takes until `time`; S3 dates what it is given `reported`.
   `MetaFails` is a read of DynamoDB that gives no answer.
   */
  datatype Step =
    | BeginSet(id: nat, i: nat, key: string, value: CachedFile, time: nat)
    | BeginDelete(id: nat, i: nat, key: string)
    | BeginGet(id: nat, i: nat, key: string, time: nat)
    | Advance(id: nat, time: nat, reported: nat)
    | MetaFails(id: nat, time: nat)
    | Abandon(id: nat)
    | Restart(i: nat)

  ghost predicate Enabled(s: System, step: Step) {
    match step
    case BeginSet(id, i, _, _, time) => id !in s.pending && i < |s.locals| && s.now < time
    case BeginDelete(id, i, _) => id !in s.pending && i < |s.locals|
    case BeginGet(id, i, _, time) => id !in s.pending && i < |s.locals| && s.now < time
    case Advance(id, time, reported) =>
      id in s.pending && s.pending[id].i < |s.locals| && s.now < time && reported <= time
    case MetaFails(id, time) => id in s.pending && s.pending[id].GetFromMeta? && s.now < time
    case Abandon(id) => id in s.pending
    case Restart(i) => i < |s.locals|
  }

  function SetLocal(s: System, i: nat, local: Lru<LocalEntry>): System
    requires i < |s.locals|
  {
    s.(locals := s.locals[i := local])
  }

  function Apply(s: System, step: Step, config: Config): System
    requires Enabled(s, step)
  {
    match step
    case BeginSet(id, i, key, value, time) => s.(now := time, pending := s.pending[id := SetToS3(i, key, value, time)])
    case BeginDelete(id, i, key) => s.(pending := s.pending[id := DeleteInS3(i, key)])
    case BeginGet(id, i, key, time) =>
      var local := s.locals[i];
      var touched := SetLocal(s.(now := time), i, Touched(local, key));
      if key !in local.data then touched.(pending := s.pending[id := GetFromS3(i, key)])
      else if FreshLocally(local.data[key], time, config) then touched
      else touched.(pending := s.pending[id := GetFromMeta(i, key, local.data[key])])
    case Advance(id, time, reported) => ApplyPending(s.(now := time), id, s.pending[id], reported, config)
    case MetaFails(id, time) =>
      var op := s.pending[id];
      s.(now := time, pending := s.pending[id := GetFromS3(op.i, op.key)])
    case Abandon(id) => s.(pending := s.pending - {id})
    case Restart(i) =>
      SetLocal(s, i, EmptyLru()).(pending := map id | id in s.pending && s.pending[id].i != i :: s.pending[id])
  }

  function ApplyPending(s: System, id: nat, op: Pending, reported: nat, config: Config): System
    requires op.i < |s.locals|
  {
    var done := s.(pending := s.pending - {id});
    match op
    case SetToS3(i, key, value, at) =>
      s.(remote := s.remote.(s3 := s.remote.s3[key := S3Object(value, reported)]),
         history := s.history + [Event(s.now, key, Some(value))],
         pending := s.pending[id := SetToMeta(i, key, value, at)])
    case SetToMeta(i, key, value, at) =>
      s.(remote := s.remote.(meta := s.remote.meta[key := RevalidatedAt(at)]),
         pending := s.pending[id := SetToLocal(i, key, value, at)])
    case SetToLocal(i, key, value, at) =>
      SetLocal(done, i, Put(s.locals[i], key, LocalEntry(value, at), config.maxSize))
    case DeleteInS3(i, key) =>
      s.(remote := s.remote.(s3 := s.remote.s3 - {key}),
         history := s.history + [Event(s.now, key, None)],
         pending := s.pending[id := DeleteInMeta(i, key)])
    case DeleteInMeta(i, key) =>
      s.(remote := s.remote.(meta := s.remote.meta[key := DeletedMark]),
         pending := s.pending[id := DeleteInLocal(i, key)])
    case DeleteInLocal(i, key) => SetLocal(done, i, Removed(s.locals[i], key))
    case GetFromMeta(i, key, entry) =>
      if MarkedDeleted(s.remote, key) then SetLocal(done, i, Removed(s.locals[i], key))
      else if MetaAllows(s.remote, key, entry) then done
      else s.(pending := s.pending[id := GetFromS3(i, key)])
    case GetFromS3(i, key) =>
      if key in s.remote.s3 then s.(pending := s.pending[id := GetToLocal(i, key, s.remote.s3[key])]) else done
    case GetToLocal(i, key, item) =>
      SetLocal(done, i, Put(s.locals[i], key, LocalEntry(item.value, item.lastModified), config.maxSize))
  }

  // ---- S3's value over time

  /** What S3 held for `key` at the instant `time`. */
  function S3At(history: seq<Event>, key: string, time: nat): Option<CachedFile> {
    if history == [] then None
    else
      var last := history[|history| - 1];
      if last.key == key && last.at <= time then last.value else S3At(history[..|history| - 1], key, time)
  }

  ghost predicate InOrder(history: seq<Event>, now: nat) {
    && (forall k, l :: 0 <= k < l < |history| ==> history[k].at < history[l].at)
    && (forall k :: 0 <= k < |history| ==> history[k].at <= now)
  }

  lemma {:induction false} EventHolds(history: seq<Event>, now: nat, k: int)
    requires InOrder(history, now) && 0 <= k < |history|
    ensures S3At(history, history[k].key, history[k].at) == history[k].value
  {
    var last := |history| - 1;
    if k < last {
      assert history[k].at < history[last].at;
      EventHolds(history[..last], now, k);
    }
  }

  /** S3 was given `value` for `key` at `lastModified` or later. */
  ghost predicate Backed(history: seq<Event>, key: string, value: CachedFile, lastModified: nat) {
    exists k :: 0 <= k < |history| && history[k].key == key && history[k].value == Some(value)
        && history[k].at >= lastModified
  }

  lemma BackedStays(history: seq<Event>, more: seq<Event>)
    ensures forall key, value, lastModified ::
              Backed(history, key, value, lastModified) ==> Backed(history + more, key, value, lastModified)
  {
    forall key, value, lastModified | Backed(history, key, value, lastModified)
      ensures Backed(history + more, key, value, lastModified)
    {
      var k :| 0 <= k < |history| && history[k].key == key && history[k].value == Some(value)
          && history[k].at >= lastModified;
      assert (history + more)[k] == history[k];
    }
  }

  ghost predicate LocalBacked(history: seq<Event>, local: Lru<LocalEntry>) {
    forall key :: key in local.data ==> Backed(history, key, local.data[key].value, local.data[key].lastModified)
  }

  ghost predicate PendingBacked(history: seq<Event>, op: Pending, now: nat) {
    match op
    case SetToS3(_, _, _, at) => at <= now
    case SetToMeta(_, key, value, at) => Backed(history, key, value, at)
    case SetToLocal(_, key, value, at) => Backed(history, key, value, at)
    case GetToLocal(_, key, item) => Backed(history, key, item.value, item.lastModified)
    case GetFromMeta(_, key, entry) => Backed(history, key, entry.value, entry.lastModified)
    case _ => true
  }

  ghost predicate AllBacked(s: System, config: Config) {
    && InOrder(s.history, s.now)
    && (forall key :: key in s.remote.s3 ==>
        Backed(s.history, key, s.remote.s3[key].value, s.remote.s3[key].lastModified))
    && (forall i :: 0 <= i < |s.locals| ==> Bounded(s.locals[i], config.maxSize) && LocalBacked(s.history, s.locals[i]))
    && (forall id :: id in s.pending ==> PendingBacked(s.history, s.pending[id], s.now))
  }

  lemma TimePasses(s: System, time: nat, config: Config)
    requires AllBacked(s, config) && s.now <= time
    ensures AllBacked(s.(now := time), config)
  {
  }

  lemma EventIsAdded(s: System, event: Event, config: Config)
    requires AllBacked(s, config) && (forall k :: 0 <= k < |s.history| ==> s.history[k].at < event.at)
        && event.at <= s.now
    ensures AllBacked(s.(history := s.history + [event]), config)
    ensures event.value.Some? ==> forall lastModified: nat :: lastModified <= event.at ==>
              Backed(s.history + [event], event.key, event.value.value, lastModified)
  {
    assert (s.history + [event])[|s.history|] == event;
    BackedStays(s.history, [event]);
    var s' := s.(history := s.history + [event]);
    forall id | id in s'.pending
      ensures PendingBacked(s'.history, s'.pending[id], s'.now)
    {
      assert PendingBacked(s.history, s.pending[id], s.now);
    }
  }

  lemma LocalChanges(s: System, i: nat, local: Lru<LocalEntry>, config: Config)
    requires AllBacked(s, config) && i < |s.locals|
    requires Bounded(local, config.maxSize) && LocalBacked(s.history, local)
    ensures AllBacked(SetLocal(s, i, local), config)
  {
  }

  lemma PendingChanges(s: System, pending: map<nat, Pending>, config: Config)
    requires AllBacked(s, config)
    requires forall id :: id in pending ==>
               (id in s.pending && pending[id] == s.pending[id]) || PendingBacked(s.history, pending[id], s.now)
    ensures AllBacked(s.(pending := pending), config)
  {
  }

  lemma RemoteChanges(s: System, remote: Remote, config: Config)
    requires AllBacked(s, config)
    requires forall key :: key in remote.s3 ==>
               (key in s.remote.s3 && remote.s3[key] == s.remote.s3[key])
               || Backed(s.history, key, remote.s3[key].value, remote.s3[key].lastModified)
    ensures AllBacked(s.(remote := remote), config)
  {
  }

  lemma S3WriteKeepsBacked(s: System, id: nat, time: nat, reported: nat, config: Config)
    requires AllBacked(s, config) && Enabled(s, Advance(id, time, reported))
    requires s.pending[id].SetToS3? || s.pending[id].DeleteInS3?
    ensures AllBacked(Apply(s, Advance(id, time, reported), config), config)
  {
    var end := Apply(s, Advance(id, time, reported), config);
    TimePasses(s, time, config);
    var event := end.history[|s.history|];
    EventIsAdded(s.(now := time), event, config);
    var s1 := s.(now := time, history := end.history);
    RemoteChanges(s1, end.remote, config);
    PendingChanges(s1.(remote := end.remote), end.pending, config);
  }

  /** The last step of an operation: it writes a local cache and is gone. */
  lemma Finishes(s: System, id: nat, i: nat, local: Lru<LocalEntry>, config: Config)
    requires AllBacked(s, config) && i < |s.locals|
    requires Bounded(local, config.maxSize) && LocalBacked(s.history, local)
    ensures AllBacked(SetLocal(s.(pending := s.pending - {id}), i, local), config)
  {
    PendingChanges(s, s.pending - {id}, config);
    LocalChanges(s.(pending := s.pending - {id}), i, local, config);
  }

  /** An intermediate step that leaves S3 alone. */
  lemma Continues(s: System, id: nat, next: Pending, meta: map<string, MetaRow>, config: Config)
    requires AllBacked(s, config) && PendingBacked(s.history, next, s.now)
    ensures AllBacked(s.(remote := s.remote.(meta := meta), pending := s.pending[id := next]), config)
  {
    RemoteChanges(s, s.remote.(meta := meta), config);
    PendingChanges(s.(remote := s.remote.(meta := meta)), s.pending[id := next], config);
  }

  lemma LocalWriteKeepsBacked(s: System, id: nat, op: Pending, config: Config)
    requires AllBacked(s, config) && op.i < |s.locals| && PendingBacked(s.history, op, s.now)
    requires op.SetToLocal? || op.GetToLocal? || op.DeleteInLocal?
    ensures AllBacked(ApplyPending(s, id, op, 0, config), config)
  {
    var local := s.locals[op.i];
    match op
    case SetToLocal(i, key, value, at) =>
      PutStaysBounded(local, key, LocalEntry(value, at), config.maxSize);
      Finishes(s, id, i, Put(local, key, LocalEntry(value, at), config.maxSize), config);
    case GetToLocal(i, key, item) =>
      PutStaysBounded(local, key, LocalEntry(item.value, item.lastModified), config.maxSize);
      Finishes(s, id, i, Put(local, key, LocalEntry(item.value, item.lastModified), config.maxSize), config);
    case DeleteInLocal(i, key) =>
      RemovedStaysBounded(local, key, config.maxSize);
      Finishes(s, id, i, Removed(local, key), config);
  }

  lemma MetaStepKeepsBacked(s: System, id: nat, op: Pending, config: Config)
    requires AllBacked(s, config) && op.i < |s.locals| && PendingBacked(s.history, op, s.now)
    requires op.SetToMeta? || op.DeleteInMeta? || op.GetFromMeta? || op.GetFromS3?
    ensures AllBacked(ApplyPending(s, id, op, 0, config), config)
  {
    match op
    case SetToMeta(i, key, value, at) =>
      Continues(s, id, SetToLocal(i, key, value, at), s.remote.meta[key := RevalidatedAt(at)], config);
    case DeleteInMeta(i, key) =>
      Continues(s, id, DeleteInLocal(i, key), s.remote.meta[key := DeletedMark], config);
    case GetFromMeta(i, key, entry) => MetaReadKeepsBacked(s, id, op, config);
    case GetFromS3(i, key) =>
      if key in s.remote.s3 {
        Continues(s, id, GetToLocal(i, key, s.remote.s3[key]), s.remote.meta, config);
      } else {
        PendingChanges(s, s.pending - {id}, config);
      }
  }

  lemma MetaReadKeepsBacked(s: System, id: nat, op: Pending, config: Config)
    requires AllBacked(s, config) && op.i < |s.locals| && op.GetFromMeta?
    ensures AllBacked(ApplyPending(s, id, op, 0, config), config)
  {
    if MarkedDeleted(s.remote, op.key) {
      RemovedStaysBounded(s.locals[op.i], op.key, config.maxSize);
      Finishes(s, id, op.i, Removed(s.locals[op.i], op.key), config);
    } else if MetaAllows(s.remote, op.key, op.entry) {
      PendingChanges(s, s.pending - {id}, config);
    } else {
      Continues(s, id, GetFromS3(op.i, op.key), s.remote.meta, config);
    }
  }

  lemma AdvanceKeepsBacked(s: System, id: nat, time: nat, reported: nat, config: Config)
    requires AllBacked(s, config) && Enabled(s, Advance(id, time, reported))
    ensures AllBacked(Apply(s, Advance(id, time, reported), config), config)
  {
    var op, s' := s.pending[id], s.(now := time);
    if op.SetToS3? || op.DeleteInS3? {
      S3WriteKeepsBacked(s, id, time, reported, config);
    } else {
      TimePasses(s, time, config);
      assert PendingBacked(s.history, op, s.now);
      assert ApplyPending(s', id, op, reported, config) == ApplyPending(s', id, op, 0, config);
      if op.SetToLocal? || op.GetToLocal? || op.DeleteInLocal? {
        LocalWriteKeepsBacked(s', id, op, config);
      } else {
        MetaStepKeepsBacked(s', id, op, config);
      }
    }
  }

  lemma TouchKeepsBacked(s: System, i: nat, key: string, config: Config)
    requires AllBacked(s, config) && i < |s.locals|
    ensures AllBacked(SetLocal(s, i, Touched(s.locals[i], key)), config)
  {
    TouchedStaysBounded(s.locals[i], key, config.maxSize);
    LocalChanges(s, i, Touched(s.locals[i], key), config);
  }

  lemma BeginGetKeepsBacked(s: System, id: nat, i: nat, key: string, time: nat, config: Config)
    requires AllBacked(s, config) && Enabled(s, BeginGet(id, i, key, time))
    ensures AllBacked(Apply(s, BeginGet(id, i, key, time), config), config)
  {
    TimePasses(s, time, config);
    TouchKeepsBacked(s.(now := time), i, key, config);
    var touched, local := SetLocal(s.(now := time), i, Touched(s.locals[i], key)), s.locals[i];
    if key !in local.data {
      PendingChanges(touched, s.pending[id := GetFromS3(i, key)], config);
    } else if !FreshLocally(local.data[key], time, config) {
      PendingChanges(touched, s.pending[id := GetFromMeta(i, key, local.data[key])], config);
    }
  }

  lemma RestartKeepsBacked(s: System, i: nat, config: Config)
    requires AllBacked(s, config) && Enabled(s, Restart(i))
    ensures AllBacked(Apply(s, Restart(i), config), config)
  {
    LocalChanges(s, i, EmptyLru(), config);
    PendingChanges(SetLocal(s, i, EmptyLru()), Apply(s, Restart(i), config).pending, config);
  }

  lemma StepKeepsBacked(s: System, step: Step, config: Config)
    requires AllBacked(s, config) && Enabled(s, step)
    ensures AllBacked(Apply(s, step, config), config)
  {
    match step
    case Advance(id, time, reported) => AdvanceKeepsBacked(s, id, time, reported, config);
    case BeginGet(id, i, key, time) => BeginGetKeepsBacked(s, id, i, key, time, config);
    case BeginSet(id, i, key, value, time) =>
      TimePasses(s, time, config);
      PendingChanges(s.(now := time), s.pending[id := SetToS3(i, key, value, time)], config);
    case BeginDelete(id, i, key) => PendingChanges(s, s.pending[id := DeleteInS3(i, key)], config);
    case MetaFails(id, time) =>
      TimePasses(s, time, config);
      PendingChanges(s.(now := time), Apply(s, step, config).pending, config);
    case Abandon(id) => PendingChanges(s, s.pending - {id}, config);
    case Restart(i) => RestartKeepsBacked(s, i, config);
  }

  /** Caches start empty; the bucket may already hold objects, each dated no later than it was written. */
  ghost predicate Initial(s: System) {
    && InOrder(s.history, s.now) && s.pending == map[]
    && (forall key :: key in s.remote.s3 ==>
        Backed(s.history, key, s.remote.s3[key].value, s.remote.s3[key].lastModified))
    && (forall i :: 0 <= i < |s.locals| ==> s.locals[i] == EmptyLru())
  }

  /** The state after `steps`, or `None` when one of them cannot happen. */
  ghost function Run(s: System, steps: seq<Step>, config: Config): Option<System>
    decreases |steps|
  {
    if steps == [] then Some(s)
    else if Enabled(s, steps[0]) then Run(Apply(s, steps[0], config), steps[1..], config)
    else None
  }

  lemma {:induction false} RunKeepsBacked(s: System, steps: seq<Step>, config: Config)
    requires AllBacked(s, config) && Run(s, steps, config).Some?
    ensures AllBacked(Run(s, steps, config).value, config)
    decreases |steps|
  {
    if steps != [] {
      StepKeepsBacked(s, steps[0], config);
      RunKeepsBacked(Apply(s, steps[0], config), steps[1..], config);
    }
  }

  /**
   Bounded staleness: whatever overlaps and whatever is abandoned half way, a value an instance would return
   without asking DynamoDB was S3's value for that key at some instant less than the time to live ago.
   */
  lemma LocalValueIsRecent(s: System, steps: seq<Step>, config: Config, i: int, key: string, now: nat)
    returns (instant: nat)
    requires Initial(s) && Run(s, steps, config).Some?
    requires var end := Run(s, steps, config).value;
             && end.now <= now && 0 <= i < |end.locals| && key in end.locals[i].data
             && FreshLocally(end.locals[i].data[key], now, config)
    ensures now - config.ttl < instant <= now
    ensures var end := Run(s, steps, config).value;
            S3At(end.history, key, instant) == Some(end.locals[i].data[key].value)
  {
    RunKeepsBacked(s, steps, config);
    var end := Run(s, steps, config).value;
    var entry := end.locals[i].data[key];
    assert Backed(end.history, key, entry.value, entry.lastModified);
    var k :| 0 <= k < |end.history| && end.history[k].key == key
             && end.history[k].value == Some(entry.value) && end.history[k].at >= entry.lastModified;
    EventHolds(end.history, end.now, k);
    instant := end.history[k].at;
  }

  // ---- Why the stronger claim needs operations that do not overlap

  const OLD_FILE := CachedFile(Route("old"), None, Unset)
  const NEW_FILE := CachedFile(Route("new"), None, Unset)

  function OverlapState(n: nat, config: Config): System
    requires n <= 4
  {
    var empty: Lru<LocalEntry> := EmptyLru();
    var events := [Event(3, "k", Some(NEW_FILE)), Event(4, "k", Some(OLD_FILE))];
    var s3 := map["k" := S3Object(OLD_FILE, 4)];
    var meta: map<string, MetaRow> := map["k" := RevalidatedAt(2)];
    match n
    case 0 => System(0, [empty, empty], Remote(map[], map[]), [], map[])
    case 1 => System(2, [empty, empty], Remote(map[], map[]), [],
                     map[0 := SetToS3(0, "k", OLD_FILE, 1), 1 := SetToS3(1, "k", NEW_FILE, 2)])
    case 2 => System(4, [empty, empty], Remote(s3, map[]), events,
                     map[0 := SetToMeta(0, "k", OLD_FILE, 1), 1 := SetToMeta(1, "k", NEW_FILE, 2)])
    case 3 => System(6, [empty, empty], Remote(s3, meta), events,
                     map[0 := SetToLocal(0, "k", OLD_FILE, 1), 1 := SetToLocal(1, "k", NEW_FILE, 2)])
    case 4 => System(8, [Put(empty, "k", LocalEntry(OLD_FILE, 1), config.maxSize),
                         Put(empty, "k", LocalEntry(NEW_FILE, 2), config.maxSize)], Remote(s3, meta), events, map[])
  }

  function OverlapSteps(n: nat): seq<Step>
    requires n < 4
  {
    match n
    case 0 => [BeginSet(0, 0, "k", OLD_FILE, 1), BeginSet(1, 1, "k", NEW_FILE, 2)]
    case 1 => [Advance(1, 3, 3), Advance(0, 4, 4)]
    case 2 => [Advance(0, 5, 5), Advance(1, 6, 6)]
    case 3 => [Advance(0, 7, 7), Advance(1, 8, 8)]
  }

  ghost predicate TwoStepsLead(s: System, steps: seq<Step>, config: Config, end: System) {
    && |steps| == 2 && Enabled(s, steps[0]) && Enabled(Apply(s, steps[0], config), steps[1])
    && Apply(Apply(s, steps[0], config), steps[1], config) == end
  }

  lemma OverlapBegins(config: Config)
    ensures TwoStepsLead(OverlapState(0, config), OverlapSteps(0), config, OverlapState(1, config))
  {
  }

  lemma OverlapWritesS3(config: Config)
    ensures TwoStepsLead(OverlapState(1, config), OverlapSteps(1), config, OverlapState(2, config))
  {
  }

  lemma OverlapWritesMeta(config: Config)
    ensures TwoStepsLead(OverlapState(2, config), OverlapSteps(2), config, OverlapState(3, config))
  {
  }

  lemma OverlapWritesLocals(config: Config)
    ensures TwoStepsLead(OverlapState(3, config), OverlapSteps(3), config, OverlapState(4, config))
  {
  }

  lemma RunTwo(s: System, steps: seq<Step>, rest: seq<Step>, config: Config, end: System)
    requires TwoStepsLead(s, steps, config, end)
    ensures Run(s, steps + rest, config) == Run(end, rest, config)
  {
    var all := steps + rest;
    assert all[0] == steps[0] && all[1..][0] == steps[1] && all[1..][1..] == rest;
  }

  lemma OverlapRuns(config: Config) returns (steps: seq<Step>)
    ensures Run(OverlapState(0, config), steps, config) == Some(OverlapState(4, config))
  {
    OverlapBegins(config);
    OverlapWritesS3(config);
    OverlapWritesMeta(config);
    OverlapWritesLocals(config);
    steps := RunFourPairs(OverlapState(0, config), OverlapState(1, config), OverlapState(2, config),
                          OverlapState(3, config), OverlapState(4, config),
                          OverlapSteps(0), OverlapSteps(1), OverlapSteps(2), OverlapSteps(3), config);
  }

  /**
   Two overlapping sets on two instances, no time to live: the later set's S3 write lands first, and its
   instance goes on answering its own value although DynamoDB was asked and S3 holds the other one.
   */
  lemma OverlappingSetsDisagree(config: Config) returns (s: System, steps: seq<Step>, end: System)
    requires config.ttl <= 0
    ensures Initial(s) && Run(s, steps, config) == Some(end)
    ensures end.pending == map[] && |end.locals| == 2
    ensures ValueOf(Lookup(end.locals[1], end.remote, "k", end.now, true, config).0) == Some(NEW_FILE)
    ensures S3Value(end.remote, "k") == Some(OLD_FILE)
  {
    s, end := OverlapState(0, config), OverlapState(4, config);
    steps := OverlapRuns(config);
    OverlapEnds(config);
  }

  lemma RunFourPairs(a: System, b: System, c: System, d: System, e: System,
                     p: seq<Step>, q: seq<Step>, r: seq<Step>, t: seq<Step>, config: Config) returns (steps: seq<Step>)
    requires TwoStepsLead(a, p, config, b) && TwoStepsLead(b, q, config, c)
    requires TwoStepsLead(c, r, config, d) && TwoStepsLead(d, t, config, e)
    ensures Run(a, steps, config) == Some(e)
  {
    steps := p + (q + (r + (t + [])));
    RunTwo(a, p, q + (r + (t + [])), config, b);
    RunTwo(b, q, r + (t + []), config, c);
    RunTwo(c, r, t + [], config, d);
    RunTwo(d, t, [], config, e);
  }

  lemma OverlapEnds(config: Config)
    requires config.ttl <= 0
    ensures var end := OverlapState(4, config);
            && ValueOf(Lookup(end.locals[1], end.remote, "k", end.now, true, config).0) == Some(NEW_FILE)
            && S3Value(end.remote, "k") == Some(OLD_FILE)
  {
  }
}
