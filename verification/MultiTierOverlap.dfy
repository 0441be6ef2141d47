/**
 The multi-tier cache when the writes of a key overlap, stop half way or get lost: over every run, what S3 and DynamoDB
 hold in the end and the dates of all that was ever there decide exactly which instances answer what S3 does not hold.
 */
module MultiTierOverlap {
  import opened Wrappers
  import opened CacheTypes
  import opened LruModel
  import opened MultiTier
  import opened MultiTierSteps

  /** One set of the key: where, what, and the timestamp it took. */
  datatype Write = Write(i: nat, value: CachedFile, at: nat)

  /** What the last change of the S3 object of the key was, in this run. */
  datatype S3State = S3Before(before: Option<S3Object>) | S3Set(w: Write, written: S3Object) | S3Deleted

  /** What the last change of its DynamoDB row was. */
  datatype RowState = RowBefore(row: Option<MetaRow>) | RowSet(w: Write) | RowDeleted

  /** The sets that have begun and those that have stamped DynamoDB, all objects S3 has held, and the last changes. */
  datatype Log = Log(begun: set<Write>, stamped: set<Write>, objects: set<S3Object>, s3: S3State, row: RowState)

  function ObjectIn(remote: Remote, key: string): Option<S3Object> {
    if key in remote.s3 then Some(remote.s3[key]) else None
  }

  function RowIn(remote: Remote, key: string): Option<MetaRow> {
    if key in remote.meta then Some(remote.meta[key]) else None
  }

  function StartLog(remote: Remote, key: string): Log {
    Log({}, {}, if key in remote.s3 then {remote.s3[key]} else {},
        S3Before(ObjectIn(remote, key)), RowBefore(RowIn(remote, key)))
  }

  function ObjectOf(s3: S3State): Option<S3Object> {
    match s3
    case S3Before(item) => item
    case S3Set(_, item) => Some(item)
    case S3Deleted => None
  }

  function RowOf(row: RowState): Option<MetaRow> {
    match row
    case RowBefore(row') => row'
    case RowSet(w) => Some(RevalidatedAt(w.at))
    case RowDeleted => Some(DeletedMark)
  }

  function LogAdvance(op: Pending, reported: nat, key: string, log: Log): Log {
    if op.key != key then log
    else
      match op
      case SetToS3(i, _, value, at) =>
        var written := S3Object(value, reported);
        log.(objects := log.objects + {written}, s3 := S3Set(Write(i, value, at), written))
      case SetToMeta(i, _, value, at) =>
        log.(stamped := log.stamped + {Write(i, value, at)}, row := RowSet(Write(i, value, at)))
      case DeleteInS3(_, _) => log.(s3 := S3Deleted)
      case DeleteInMeta(_, _) => log.(row := RowDeleted)
      case _ => log
  }

  function LogStep(s: System, step: Step, key: string, log: Log): Log
    requires step.Advance? ==> step.id in s.pending
  {
    match step
    case BeginSet(_, i, k, value, time) => if k == key then log.(begun := log.begun + {Write(i, value, time)}) else log
    case Advance(id, _, reported) => LogAdvance(s.pending[id], reported, key, log)
    case _ => log
  }

  ghost function LogRun(s: System, steps: seq<Step>, key: string, log: Log, config: Config): Log
    requires Run(s, steps, config).Some?
    decreases |steps|
  {
    if steps == [] then log
    else LogRun(Apply(s, steps[0], config), steps[1..], key, LogStep(s, steps[0], key, log), config)
  }

  function ObjectEntry(item: S3Object): LocalEntry {
    LocalEntry(item.value, item.lastModified)
  }

  function WriteEntry(w: Write): LocalEntry {
    LocalEntry(w.value, w.at)
  }

  /** All a local cache can ever hold for the key: what sets put there, and what was read from S3. */
  function Entries(log: Log): set<LocalEntry> {
    (set w | w in log.stamped :: WriteEntry(w)) + (set o | o in log.objects :: ObjectEntry(o))
  }

  // ---- The log is right

  ghost predicate RemoteLogged(remote: Remote, key: string, log: Log) {
    && ObjectOf(log.s3) == ObjectIn(remote, key)
    && RowOf(log.row) == RowIn(remote, key)
    && (key in remote.s3 ==> remote.s3[key] in log.objects)
    && (log.s3.S3Set? ==> log.s3.w in log.begun && log.s3.written.value == log.s3.w.value)
    && (log.row.RowSet? ==> log.row.w in log.stamped)
  }

  ghost predicate LocalsLogged(s: System, key: string, log: Log) {
    forall i :: 0 <= i < |s.locals| && key in s.locals[i].data ==> s.locals[i].data[key] in Entries(log)
  }

  ghost predicate OpLogged(op: Pending, key: string, log: Log) {
    op.key == key ==>
      match op
      case SetToS3(i, _, value, at) => Write(i, value, at) in log.begun
      case SetToMeta(i, _, value, at) => Write(i, value, at) in log.begun
      case SetToLocal(i, _, value, at) => Write(i, value, at) in log.stamped
      case GetFromMeta(_, _, entry) => entry in Entries(log)
      case GetToLocal(_, _, item) => ObjectEntry(item) in Entries(log)
      case _ => true
  }

  ghost predicate PendingLogged(s: System, key: string, log: Log) {
    forall id :: id in s.pending ==> OpLogged(s.pending[id], key, log)
  }

  ghost predicate TimesLogged(log: Log, now: nat) {
    && log.stamped <= log.begun
    && (forall w :: w in log.begun ==> w.at <= now)
    && (forall w, x :: w in log.begun && x in log.begun && w.at == x.at ==> w == x)
  }

  ghost predicate Logged(s: System, key: string, log: Log) {
    && RemoteLogged(s.remote, key, log) && LocalsLogged(s, key, log)
    && PendingLogged(s, key, log) && TimesLogged(log, s.now)
  }

  /** A log only grows. */
  ghost predicate Grows(log: Log, log': Log) {
    log.begun <= log'.begun && log.stamped <= log'.stamped && log.objects <= log'.objects
  }

  lemma GrownEntries(log: Log, log': Log)
    requires Grows(log, log')
    ensures Entries(log) <= Entries(log')
    ensures forall op, key :: OpLogged(op, key, log) ==> OpLogged(op, key, log')
  {
  }

  /** Nothing new in a local cache but `entry`. */
  ghost predicate LocalFrom(local: Lru<LocalEntry>, local': Lru<LocalEntry>, key: string, entries: set<LocalEntry>) {
    key in local'.data ==>
      (key in local.data && local.data[key] == local'.data[key]) || local'.data[key] in entries
  }

  lemma LocalsStayLogged(s: System, s': System, i: nat, key: string, log: Log, log': Log)
    requires LocalsLogged(s, key, log) && Grows(log, log') && i < |s.locals| == |s'.locals|
    requires s'.locals == s.locals[i := s'.locals[i]] && LocalFrom(s.locals[i], s'.locals[i], key, Entries(log'))
    ensures LocalsLogged(s', key, log')
  {
    GrownEntries(log, log');
  }

  lemma PutFrom(local: Lru<LocalEntry>, k: string, entry: LocalEntry, key: string, entries: set<LocalEntry>,
                config: Config)
    requires Bounded(local, config.maxSize) && (k == key ==> entry in entries)
    ensures LocalFrom(local, Put(local, k, entry, config.maxSize), key, entries)
  {
    PutStaysBounded(local, k, entry, config.maxSize);
  }

  lemma TouchedFrom(local: Lru<LocalEntry>, k: string, key: string, entries: set<LocalEntry>, config: Config)
    requires Bounded(local, config.maxSize)
    ensures LocalFrom(local, Touched(local, k), key, entries)
  {
    TouchedStaysBounded(local, k, config.maxSize);
  }

  // ---- Every step keeps it right

  lemma AdvanceGrows(op: Pending, reported: nat, key: string, log: Log)
    ensures Grows(log, LogAdvance(op, reported, key, log))
  {
  }

  lemma AdvanceLocals(s: System, id: nat, time: nat, reported: nat, key: string, log: Log, config: Config)
    requires AllBacked(s, config) && Logged(s, key, log) && Enabled(s, Advance(id, time, reported))
    ensures LocalsLogged(Apply(s, Advance(id, time, reported), config), key,
                         LogAdvance(s.pending[id], reported, key, log))
  {
    var op, s' := s.pending[id], Apply(s, Advance(id, time, reported), config);
    var log' := LogAdvance(op, reported, key, log);
    assert OpLogged(op, key, log);
    AdvanceGrows(op, reported, key, log);
    if op.SetToLocal? {
      PutFrom(s.locals[op.i], op.key, LocalEntry(op.value, op.revalidatedAt), key, Entries(log'), config);
    } else if op.GetToLocal? {
      PutFrom(s.locals[op.i], op.key, ObjectEntry(op.item), key, Entries(log'), config);
    }
    LocalsStayLogged(s, s', op.i, key, log, log');
  }

  lemma AdvanceRemote(s: System, id: nat, time: nat, reported: nat, key: string, log: Log, config: Config)
    requires Logged(s, key, log) && Enabled(s, Advance(id, time, reported))
    ensures RemoteLogged(Apply(s, Advance(id, time, reported), config).remote, key,
                         LogAdvance(s.pending[id], reported, key, log))
  {
    assert OpLogged(s.pending[id], key, log);
  }

  /** Only the operation itself moves on or ends. */
  lemma AdvancePending(s: System, id: nat, time: nat, reported: nat, key: string, log: Log, config: Config)
    requires Logged(s, key, log) && Enabled(s, Advance(id, time, reported))
    ensures PendingLogged(Apply(s, Advance(id, time, reported), config), key,
                          LogAdvance(s.pending[id], reported, key, log))
  {
    var op, s' := s.pending[id], Apply(s, Advance(id, time, reported), config);
    var log' := LogAdvance(op, reported, key, log);
    AdvanceGrows(op, reported, key, log);
    GrownEntries(log, log');
    forall other | other in s'.pending
      ensures OpLogged(s'.pending[other], key, log')
    {
      if other == id {
        MovedOpLogged(s, id, time, reported, key, log, config);
      } else {
        assert other in s.pending && s'.pending[other] == s.pending[other];
      }
    }
  }

  lemma MovedOpLogged(s: System, id: nat, time: nat, reported: nat, key: string, log: Log, config: Config)
    requires Logged(s, key, log) && Enabled(s, Advance(id, time, reported))
    requires id in Apply(s, Advance(id, time, reported), config).pending
    ensures OpLogged(Apply(s, Advance(id, time, reported), config).pending[id], key,
                     LogAdvance(s.pending[id], reported, key, log))
  {
    var op := s.pending[id];
    assert OpLogged(op, key, log);
    if op.GetFromS3? && op.key == key && key in s.remote.s3 {
      assert ObjectEntry(s.remote.s3[key]) in Entries(log);
    }
  }

  lemma AdvanceLogs(s: System, id: nat, time: nat, reported: nat, key: string, log: Log, config: Config)
    requires AllBacked(s, config) && Logged(s, key, log) && Enabled(s, Advance(id, time, reported))
    ensures Logged(Apply(s, Advance(id, time, reported), config), key, LogAdvance(s.pending[id], reported, key, log))
  {
    AdvanceLocals(s, id, time, reported, key, log, config);
    AdvanceRemote(s, id, time, reported, key, log, config);
    AdvancePending(s, id, time, reported, key, log, config);
    assert OpLogged(s.pending[id], key, log);
  }

  lemma BeginSetLogs(s: System, id: nat, i: nat, k: string, value: CachedFile, time: nat, key: string, log: Log,
                     config: Config)
    requires Enabled(s, BeginSet(id, i, k, value, time)) && Logged(s, key, log)
    ensures Logged(Apply(s, BeginSet(id, i, k, value, time), config), key,
                   LogStep(s, BeginSet(id, i, k, value, time), key, log))
  {
    var log' := LogStep(s, BeginSet(id, i, k, value, time), key, log);
    assert Entries(log') == Entries(log);
    GrownEntries(log, log');
  }

  lemma BeginGetLogs(s: System, id: nat, i: nat, k: string, time: nat, key: string, log: Log, config: Config)
    requires AllBacked(s, config) && Enabled(s, BeginGet(id, i, k, time)) && Logged(s, key, log)
    ensures Logged(Apply(s, BeginGet(id, i, k, time), config), key, log)
  {
    TouchedFrom(s.locals[i], k, key, Entries(log), config);
    LocalsStayLogged(s, Apply(s, BeginGet(id, i, k, time), config), i, key, log, log);
  }

  lemma StepLogs(s: System, step: Step, key: string, log: Log, config: Config)
    requires AllBacked(s, config) && Enabled(s, step) && Logged(s, key, log)
    ensures Logged(Apply(s, step, config), key, LogStep(s, step, key, log))
  {
    match step
    case BeginSet(id, i, k, value, time) => BeginSetLogs(s, id, i, k, value, time, key, log, config);
    case BeginGet(id, i, k, time) => BeginGetLogs(s, id, i, k, time, key, log, config);
    case Advance(id, time, reported) => AdvanceLogs(s, id, time, reported, key, log, config);
    case BeginDelete(_, _, _) =>
    case MetaFails(_, _) =>
    case Abandon(_) =>
    case Restart(_) =>
  }

  lemma {:induction false} RunLogs(s: System, steps: seq<Step>, key: string, log: Log, config: Config)
    requires AllBacked(s, config) && Run(s, steps, config).Some? && Logged(s, key, log)
    ensures Logged(Run(s, steps, config).value, key, LogRun(s, steps, key, log, config))
    ensures AllBacked(Run(s, steps, config).value, config)
    decreases |steps|
  {
    if steps != [] {
      StepKeepsBacked(s, steps[0], config);
      StepLogs(s, steps[0], key, log, config);
      RunLogs(Apply(s, steps[0], config), steps[1..], key, LogStep(s, steps[0], key, log), config);
    }
  }

  // ---- Which instances agree with S3

  /** A lookup on instance `i` has the value S3 holds. */
  predicate Agrees(s: System, key: string, i: nat, now: nat, config: Config)
    requires i < |s.locals|
  {
    ValueOf(Lookup(s.locals[i], s.remote, key, now, true, config).0) == S3Value(s.remote, key)
  }

  function LoggedValue(log: Log): Option<CachedFile> {
    if ObjectOf(log.s3).Some? then Some(ObjectOf(log.s3).value.value) else None
  }

  /** DynamoDB lets the entry be answered, or calls the key deleted, and S3 holds something else. */
  predicate Stale(log: Log, entry: LocalEntry) {
    match RowOf(log.row)
    case Some(DeletedMark) => LoggedValue(log).Some?
    case Some(RevalidatedAt(at)) => at <= entry.lastModified && LoggedValue(log) != Some(entry.value)
    case None => LoggedValue(log) != Some(entry.value)
  }

  /** A state some run leads to from empty caches, with the log of that run. */
  ghost predicate Reached(s: System, steps: seq<Step>, key: string, config: Config, end: System, log: Log) {
    && Initial(s) && Run(s, steps, config) == Some(end)
    && LogRun(s, steps, key, StartLog(s.remote, key), config) == log
  }

  lemma ReachedIsLogged(s: System, steps: seq<Step>, key: string, config: Config, end: System, log: Log)
    requires Reached(s, steps, key, config, end, log)
    ensures Logged(end, key, log) && AllBacked(end, config)
  {
    RunLogs(s, steps, key, StartLog(s.remote, key), config);
  }

  lemma EntryIsNotLater(s: System, config: Config, i: nat, key: string)
    requires AllBacked(s, config) && i < |s.locals| && key in s.locals[i].data
    ensures s.locals[i].data[key].lastModified <= s.now
  {
  }

  /**
   Every run, every instance, no time to live: an instance without an entry agrees with S3, and one with an entry agrees
   exactly when the entry is not stale. All a local cache ever holds is in the log.
   */
  lemma InstanceAgreesExactly(s: System, steps: seq<Step>, key: string, config: Config, end: System, log: Log,
                              i: nat, now: nat)
    requires Reached(s, steps, key, config, end, log) && config.ttl <= 0 && i < |end.locals| && end.now <= now
    ensures key !in end.locals[i].data ==> Agrees(end, key, i, now, config)
    ensures key in end.locals[i].data ==>
              var entry := end.locals[i].data[key];
              entry in Entries(log) && (Agrees(end, key, i, now, config) <==> !Stale(log, entry))
  {
    ReachedIsLogged(s, steps, key, config, end, log);
    if key in end.locals[i].data { EntryIsNotLater(end, config, i, key); }
    assert S3Value(end.remote, key) == LoggedValue(log);
  }

  ghost predicate NothingStale(log: Log) {
    forall entry :: entry in Entries(log) ==> !Stale(log, entry)
  }

  /** So all instances agree when nothing in the log is stale, and one that holds something stale does not. */
  lemma AllAgreeUnlessStale(s: System, steps: seq<Step>, key: string, config: Config, end: System, log: Log, now: nat)
    requires Reached(s, steps, key, config, end, log) && config.ttl <= 0 && end.now <= now
    ensures NothingStale(log) ==> forall i :: 0 <= i < |end.locals| ==> Agrees(end, key, i, now, config)
    ensures forall i :: 0 <= i < |end.locals| && key in end.locals[i].data && Stale(log, end.locals[i].data[key]) ==>
              !Agrees(end, key, i, now, config)
  {
    forall i | 0 <= i < |end.locals|
      ensures NothingStale(log) ==> Agrees(end, key, i, now, config)
      ensures key in end.locals[i].data && Stale(log, end.locals[i].data[key]) ==> !Agrees(end, key, i, now, config)
    {
      InstanceAgreesExactly(s, steps, key, config, end, log, i, now);
    }
  }

  /** Whatever a lookup finds on any instance is such an entry, with its own date, for any time to live. */
  lemma LookupFindsAnEntry(s: System, steps: seq<Step>, key: string, config: Config, end: System, log: Log,
                           i: nat, now: nat, metaAnswers: bool)
    requires Reached(s, steps, key, config, end, log) && i < |end.locals|
    ensures var result := Lookup(end.locals[i], end.remote, key, now, metaAnswers, config).0;
            result.Found? ==> LocalEntry(result.value, result.lastModified) in Entries(log)
  {
    ReachedIsLogged(s, steps, key, config, end, log);
    if key in end.remote.s3 {
      assert ObjectEntry(end.remote.s3[key]) in Entries(log);
    }
  }

  // ---- When nothing is stale

  /** The last S3 write and the last DynamoDB write belong to one set, the one with the largest timestamp. */
  ghost predicate LatestWonBoth(log: Log) {
    && log.s3.S3Set? && log.row.RowSet? && log.s3.w == log.row.w
    && forall w :: w in log.stamped ==> w.at <= log.row.w.at
  }

  /** Some object S3 has held has another value than it holds now, and is dated at or after DynamoDB's timestamp. */
  ghost predicate LateObject(log: Log)
    requires log.row.RowSet?
  {
    exists o :: o in log.objects && log.row.w.at <= o.lastModified && LoggedValue(log) != Some(o.value)
  }

  ghost predicate DifferentValues(log: Log)
    requires log.s3.S3Set?
  {
    forall w, x :: w in log.stamped + {log.s3.w} && x in log.stamped + {log.s3.w} && w.value == x.value ==> w == x
  }

  /** What every log of a run has. */
  ghost predicate Sound(log: Log) {
    && log.stamped <= log.begun
    && (forall w, x :: w in log.begun && x in log.begun && w.at == x.at ==> w == x)
    && (log.s3.S3Set? ==> log.s3.w in log.begun && log.s3.written.value == log.s3.w.value)
    && (log.row.RowSet? ==> log.row.w in log.stamped)
  }

  /**
   When the latest set won S3 and DynamoDB and no superseded object is dated late, nothing is stale; with different
   values only then.
   */
  lemma NothingStaleAfterSetsExactly(log: Log)
    requires Sound(log) && log.s3.S3Set? && log.row.RowSet?
    ensures LatestWonBoth(log) && !LateObject(log) ==> NothingStale(log)
    ensures DifferentValues(log) ==> (NothingStale(log) <==> LatestWonBoth(log) && !LateObject(log))
  {
    if LatestWonBoth(log) && !LateObject(log) {
      forall entry | entry in Entries(log) ensures !Stale(log, entry) {
        if w :| w in log.stamped && entry == WriteEntry(w) {
          assert log.row.w.at <= w.at ==> w == log.s3.w;
        }
      }
    }
    if NothingStale(log) {
      if LateObject(log) {
        var o :| o in log.objects && log.row.w.at <= o.lastModified && LoggedValue(log) != Some(o.value);
        assert ObjectEntry(o) in Entries(log) && Stale(log, ObjectEntry(o));
      }
      if DifferentValues(log) {
        forall w | w in log.stamped ensures log.row.w.at <= w.at ==> w == log.s3.w {
          assert WriteEntry(w) in Entries(log) && !Stale(log, WriteEntry(w));
        }
        assert log.row.w == log.s3.w;
      }
    }
  }

  /**
   After a delete: nothing is stale when DynamoDB was marked last and S3 holds nothing, or nothing was ever cached.
   */
  lemma NothingStaleAfterDeleteExactly(log: Log)
    requires Sound(log) && (log.s3.S3Deleted? || log.row.RowDeleted?)
    ensures log.row.RowDeleted? ==> (NothingStale(log) <==> LoggedValue(log).None? || Entries(log) == {})
    ensures log.row.RowSet? && log.s3.S3Deleted? ==> WriteEntry(log.row.w) in Entries(log) && !NothingStale(log)
  {
    if log.row.RowSet? {
      assert WriteEntry(log.row.w) in Entries(log) && (log.s3.S3Deleted? ==> Stale(log, WriteEntry(log.row.w)));
    }
    if log.row.RowDeleted? && Entries(log) != {} {
      var entry :| entry in Entries(log);
      assert Stale(log, entry) <==> LoggedValue(log).Some?;
    }
  }

  lemma ReachedIsSound(s: System, steps: seq<Step>, key: string, config: Config, end: System, log: Log)
    requires Reached(s, steps, key, config, end, log)
    ensures Sound(log)
  {
    ReachedIsLogged(s, steps, key, config, end, log);
  }

  /** The instance of the set still holds its entry. */
  predicate Holds(s: System, key: string, w: Write) {
    w.i < |s.locals| && key in s.locals[w.i].data && s.locals[w.i].data[key] == WriteEntry(w)
  }

  /**
   Overlapping sets: when the latest one won both and no superseded object is dated late, every instance agrees, those
   that only read the key included; and among instances that set the key and hold their different values, all agree
   only when the latest one won both.
   */
  lemma OverlappingSetsAgreeExactly(s: System, steps: seq<Step>, key: string, config: Config, end: System, log: Log,
                                    now: nat)
    requires Reached(s, steps, key, config, end, log) && config.ttl <= 0 && end.now <= now
    requires log.s3.S3Set? && log.row.RowSet?
    ensures LatestWonBoth(log) && !LateObject(log) ==>
              forall i :: 0 <= i < |end.locals| ==> Agrees(end, key, i, now, config)
    ensures DifferentValues(log) && (forall w :: w in log.stamped ==> Holds(end, key, w)) ==>
              ((forall w :: w in log.stamped ==> Agrees(end, key, w.i, now, config)) <==> LatestWonBoth(log))
  {
    ReachedIsSound(s, steps, key, config, end, log);
    NothingStaleAfterSetsExactly(log);
    AllAgreeUnlessStale(s, steps, key, config, end, log, now);
    if forall w :: w in log.stamped ==> Holds(end, key, w) {
      forall w | w in log.stamped
        ensures Agrees(end, key, w.i, now, config) <==> (log.row.w.at <= w.at ==> w.value == log.s3.w.value)
      {
        InstanceAgreesExactly(s, steps, key, config, end, log, w.i, now);
      }
    }
  }
}
