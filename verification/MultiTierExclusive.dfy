/**
 The multi-tier cache when the writes of one key do not overlap each other; gets overlap everything. As long as no
 write of the key is out every instance answers what S3 holds.
 */
module MultiTierExclusive {
  import opened Wrappers
  import opened CacheTypes
  import opened LruModel
  import opened MultiTier
  import opened MultiTierSteps

  predicate IsWriteOf(op: Pending, key: string) {
    op.key == key && !op.GetFromMeta? && !op.GetFromS3? && !op.GetToLocal?
  }

  ghost predicate NoWriteOf(s: System, key: string) {
    forall id :: id in s.pending ==> !IsWriteOf(s.pending[id], key)
  }

  /** S3 has been written and DynamoDB has not been told. */
  predicate HalfWritten(op: Pending, key: string) {
    op.key == key && (op.SetToMeta? || op.DeleteInMeta?)
  }

  /** A write of `key` begins alone, and none is given up between its two remote writes. */
  ghost predicate Exclusive(s: System, step: Step, key: string)
    requires Enabled(s, step)
  {
    match step
    case BeginSet(_, _, k, _, _) => k == key ==> NoWriteOf(s, key)
    case BeginDelete(_, _, k) => k == key ==> NoWriteOf(s, key)
    case Abandon(id) => !HalfWritten(s.pending[id], key)
    case Restart(i) => forall id :: id in s.pending && s.pending[id].i == i ==> !HalfWritten(s.pending[id], key)
    case _ => true
  }

  ghost predicate ExclusiveRun(s: System, steps: seq<Step>, key: string, config: Config)
    requires Run(s, steps, config).Some?
    decreases |steps|
  {
    steps == [] ||
    (Exclusive(s, steps[0], key) && ExclusiveRun(Apply(s, steps[0], config), steps[1..], key, config))
  }

  /** A write of the key that is out, and what S3 held when it began. */
  datatype Out = Out(op: Pending, before: Option<CachedFile>)

  /** The operation that writes the key, what S3 held when it began, and when that was. */
  datatype Writer = NoWriter | Writer(id: nat, before: Option<CachedFile>, began: nat)

  /** What S3 and DynamoDB hold for `key` while `write` is out. */
  ghost predicate RemoteFits(remote: Remote, key: string, write: Option<Out>) {
    match write
    case None => key in remote.s3 ==> !MarkedDeleted(remote, key)
    case Some(out) =>
      match out.op
      case SetToS3(_, _, _, at) =>
        && (key in remote.s3 ==> !MarkedDeleted(remote, key) && remote.s3[key].lastModified < at)
        && S3Value(remote, key) == out.before
      case SetToMeta(_, _, value, at) =>
        S3Value(remote, key) == Some(value) && (MarkedDeleted(remote, key) ==> out.before == None)
      case SetToLocal(_, _, value, at) =>
        S3Value(remote, key) == Some(value) && key in remote.meta && remote.meta[key] == RevalidatedAt(at)
      case DeleteInMeta(_, _) => key !in remote.s3
      case DeleteInLocal(_, _) => key !in remote.s3 && MarkedDeleted(remote, key)
      case _ => (key in remote.s3 ==> !MarkedDeleted(remote, key)) && S3Value(remote, key) == out.before
  }

  /** What DynamoDB lets be answered was S3's value before the write. */
  ghost predicate AgreedBefore(remote: Remote, key: string, before: Option<CachedFile>, entry: LocalEntry) {
    MarkedDeleted(remote, key) || !MetaAllows(remote, key, entry) || before == Some(entry.value)
  }

  /** What an entry of `key` in a local cache or in the hands of a get may be while `write` is out. */
  ghost predicate EntryFits(remote: Remote, key: string, write: Option<Out>, entry: LocalEntry) {
    match write
    case None => EntryAgrees(remote, key, entry)
    case Some(out) =>
      match out.op
      case SetToS3(_, _, _, at) => EntryAgrees(remote, key, entry) && entry.lastModified < at
      case SetToMeta(_, _, value, at) =>
        entry.value == value || (entry.lastModified < at && AgreedBefore(remote, key, out.before, entry))
      case SetToLocal(_, _, value, at) => entry.lastModified < at || entry.value == value
      case DeleteInMeta(_, _) => AgreedBefore(remote, key, out.before, entry)
      case DeleteInLocal(_, _) => true
      case _ => EntryAgrees(remote, key, entry)
  }

  function EntryOf(item: S3Object): LocalEntry {
    LocalEntry(item.value, item.lastModified)
  }

  lemma ReadFits(remote: Remote, key: string, write: Option<Out>)
    requires RemoteFits(remote, key, write) && key in remote.s3
    ensures EntryFits(remote, key, write, EntryOf(remote.s3[key]))
  {
  }

  ghost predicate LocalFits(local: Lru<LocalEntry>, remote: Remote, key: string, write: Option<Out>) {
    key in local.data ==> EntryFits(remote, key, write, local.data[key])
  }

  ghost predicate LocalsFit(s: System, key: string, write: Option<Out>) {
    forall i :: 0 <= i < |s.locals| ==> LocalFits(s.locals[i], s.remote, key, write)
  }

  ghost predicate PendingFits(op: Pending, remote: Remote, key: string, write: Option<Out>) {
    && (op.GetToLocal? && op.key == key ==> EntryFits(remote, key, write, EntryOf(op.item)))
    && (op.GetFromMeta? && op.key == key ==> EntryFits(remote, key, write, op.entry))
  }

  ghost predicate PendingsFit(s: System, key: string, write: Option<Out>) {
    forall id :: id in s.pending ==> PendingFits(s.pending[id], s.remote, key, write)
  }

  /** `writer` is the operation that writes `key`, when there is one. */
  ghost predicate OnlyWriter(s: System, key: string, writer: Writer) {
    && (writer.Writer? ==> writer.id in s.pending)
    && forall id :: id in s.pending ==> (IsWriteOf(s.pending[id], key) <==> writer.Writer? && writer.id == id)
  }

  function WriteOf(s: System, writer: Writer): Option<Out> {
    if writer.Writer? && writer.id in s.pending then Some(Out(s.pending[writer.id], writer.before)) else None
  }

  /**
   The writer after a step: it begins with the value S3 holds, and ends with its local write or when it is given up.
   */
  function NextWriter(s: System, step: Step, key: string, writer: Writer): Writer {
    match step
    case BeginSet(id, _, k, _, time) => if k == key then Writer(id, S3Value(s.remote, key), time) else writer
    case BeginDelete(id, _, k) => if k == key then Writer(id, S3Value(s.remote, key), s.now) else writer
    case Advance(id, _, _) =>
      if writer.Writer? && writer.id == id && id in s.pending
          && (s.pending[id].SetToLocal? || s.pending[id].DeleteInLocal?)
      then NoWriter else writer
    case Abandon(id) => if writer.Writer? && writer.id == id then NoWriter else writer
    case Restart(i) =>
      if writer.Writer? && writer.id in s.pending && s.pending[writer.id].i == i then NoWriter else writer
    case _ => writer
  }

  ghost predicate Fits(s: System, key: string, writer: Writer) {
    && OnlyWriter(s, key, writer)
    && RemoteFits(s.remote, key, WriteOf(s, writer))
    && LocalsFit(s, key, WriteOf(s, writer))
    && PendingsFit(s, key, WriteOf(s, writer))
  }

  /** Every entry and every S3 object is dated no later than now. */
  lemma NothingIsLater(s: System, config: Config, key: string)
    requires AllBacked(s, config)
    ensures key in s.remote.s3 ==> s.remote.s3[key].lastModified <= s.now
    ensures forall i :: 0 <= i < |s.locals| && key in s.locals[i].data ==> s.locals[i].data[key].lastModified <= s.now
    ensures forall id :: id in s.pending && s.pending[id].GetToLocal? ==> s.pending[id].item.lastModified <= s.now
    ensures forall id :: id in s.pending && s.pending[id].GetFromMeta? ==> s.pending[id].entry.lastModified <= s.now
  {
    forall id | id in s.pending
      ensures s.pending[id].GetToLocal? ==> s.pending[id].item.lastModified <= s.now
      ensures s.pending[id].GetFromMeta? ==> s.pending[id].entry.lastModified <= s.now
    {
      assert PendingBacked(s.history, s.pending[id], s.now);
    }
  }

  // ---- One step

  /** Entries that fitted before fit the new state of things. */
  ghost predicate Carries(remote: Remote, remote': Remote, key: string, write: Option<Out>,
                          write': Option<Out>, now: nat) {
    forall entry: LocalEntry ::
      entry.lastModified <= now && EntryFits(remote, key, write, entry) ==> EntryFits(remote', key, write', entry)
  }

  ghost predicate LocalComesFrom(local: Lru<LocalEntry>, local': Lru<LocalEntry>, remote': Remote, key: string,
                                 write': Option<Out>) {
    key in local'.data ==>
      (key in local.data && local.data[key] == local'.data[key]) || EntryFits(remote', key, write', local'.data[key])
  }

  ghost predicate LocalsComeFrom(s: System, s': System, key: string, write': Option<Out>) {
    && |s'.locals| == |s.locals|
    && forall i :: 0 <= i < |s.locals| ==> LocalComesFrom(s.locals[i], s'.locals[i], s'.remote, key, write')
  }

  ghost predicate PendingsComeFrom(s: System, s': System, key: string, write': Option<Out>) {
    forall id :: id in s'.pending && (s'.pending[id].GetToLocal? || s'.pending[id].GetFromMeta?) ==>
      (id in s.pending && s.pending[id] == s'.pending[id]) || PendingFits(s'.pending[id], s'.remote, key, write')
  }

  lemma FitsCarriesOver(s: System, s': System, key: string, writer: Writer, writer': Writer, config: Config)
    requires AllBacked(s, config) && Fits(s, key, writer) && OnlyWriter(s', key, writer')
    requires RemoteFits(s'.remote, key, WriteOf(s', writer'))
    requires Carries(s.remote, s'.remote, key, WriteOf(s, writer), WriteOf(s', writer'), s.now)
    requires LocalsComeFrom(s, s', key, WriteOf(s', writer')) && PendingsComeFrom(s, s', key, WriteOf(s', writer'))
    ensures Fits(s', key, writer')
  {
    NothingIsLater(s, config, key);
    var write' := WriteOf(s', writer');
    forall i | 0 <= i < |s'.locals| ensures LocalFits(s'.locals[i], s'.remote, key, write') {
      assert LocalFits(s.locals[i], s.remote, key, WriteOf(s, writer));
      assert LocalComesFrom(s.locals[i], s'.locals[i], s'.remote, key, write');
    }
    forall id | id in s'.pending ensures PendingFits(s'.pending[id], s'.remote, key, write') {
      if id in s.pending { assert PendingFits(s.pending[id], s.remote, key, WriteOf(s, writer)); }
    }
  }

  /** What is asked of S3 and DynamoDB is about `key` only. */
  lemma SameCarries(remote: Remote, remote': Remote, key: string, write: Option<Out>, now: nat)
    requires EntriesEqual(remote, remote', key)
    ensures Carries(remote, remote', key, write, write, now)
    ensures RemoteFits(remote, key, write) ==> RemoteFits(remote', key, write)
  {
  }

  lemma OtherKeyInLocal(local: Lru<LocalEntry>, k: string, entry: LocalEntry, key: string, config: Config)
    requires Bounded(local, config.maxSize) && k != key
    ensures key in Put(local, k, entry, config.maxSize).data ==>
              key in local.data && Put(local, k, entry, config.maxSize).data[key] == local.data[key]
  {
    PutStaysBounded(local, k, entry, config.maxSize);
  }

  /** Only operation `id`, which is no write of `key`, moves on or ends; what S3 and DynamoDB hold for `key` stays. */
  ghost predicate OnlyMoves(s: System, s': System, id: nat, key: string, write: Option<Out>) {
    && EntriesEqual(s.remote, s'.remote, key)
    && (id in s.pending ==> !IsWriteOf(s.pending[id], key))
    && (id in s'.pending ==> !IsWriteOf(s'.pending[id], key) && PendingFits(s'.pending[id], s'.remote, key, write))
    && (forall other :: other != id ==> (other in s.pending <==> other in s'.pending))
    && (forall other :: other != id && other in s.pending ==> s'.pending[other] == s.pending[other])
  }

  lemma MoveFits(s: System, s': System, id: nat, key: string, writer: Writer, config: Config)
    requires AllBacked(s, config) && Fits(s, key, writer) && OnlyMoves(s, s', id, key, WriteOf(s, writer))
    requires LocalsComeFrom(s, s', key, WriteOf(s, writer))
    ensures Fits(s', key, writer)
  {
    assert writer.Writer? ==> writer.id != id;
    assert WriteOf(s', writer) == WriteOf(s, writer);
    SameCarries(s.remote, s'.remote, key, WriteOf(s, writer), s.now);
    FitsCarriesOver(s, s', key, writer, writer, config);
  }

  lemma OneLocalChanges(s: System, s': System, i: nat, key: string, write': Option<Out>)
    requires i < |s.locals| && |s'.locals| == |s.locals| && s'.locals == s.locals[i := s'.locals[i]]
    requires LocalComesFrom(s.locals[i], s'.locals[i], s'.remote, key, write')
    ensures LocalsComeFrom(s, s', key, write')
  {
  }

  lemma OtherKeyLocals(s: System, id: nat, time: nat, reported: nat, key: string, write': Option<Out>,
                       config: Config)
    requires AllBacked(s, config) && Enabled(s, Advance(id, time, reported)) && s.pending[id].key != key
    ensures LocalsComeFrom(s, Apply(s, Advance(id, time, reported), config), key, write')
  {
    var op, s' := s.pending[id], Apply(s, Advance(id, time, reported), config);
    if op.SetToLocal? {
      OtherKeyInLocal(s.locals[op.i], op.key, LocalEntry(op.value, op.revalidatedAt), key, config);
    } else if op.GetToLocal? {
      OtherKeyInLocal(s.locals[op.i], op.key, EntryOf(op.item), key, config);
    }
    OneLocalChanges(s, s', op.i, key, write');
  }

  lemma OtherKeyMoves(s: System, id: nat, time: nat, reported: nat, key: string, write: Option<Out>, config: Config)
    requires Enabled(s, Advance(id, time, reported)) && s.pending[id].key != key
    ensures OnlyMoves(s, Apply(s, Advance(id, time, reported), config), id, key, write)
  {
    OtherKeyRemote(s, id, time, reported, key, config);
  }

  lemma OtherKeyRemote(s: System, id: nat, time: nat, reported: nat, key: string, config: Config)
    requires Enabled(s, Advance(id, time, reported)) && s.pending[id].key != key
    ensures EntriesEqual(s.remote, Apply(s, Advance(id, time, reported), config).remote, key)
  {
  }

  /** A step of an operation on another key. */
  lemma OtherKeyFits(s: System, id: nat, time: nat, reported: nat, key: string, writer: Writer, config: Config)
    requires AllBacked(s, config) && Fits(s, key, writer) && Enabled(s, Advance(id, time, reported))
        && s.pending[id].key != key
    ensures Fits(Apply(s, Advance(id, time, reported), config), key, writer)
  {
    OtherKeyMoves(s, id, time, reported, key, WriteOf(s, writer), config);
    OtherKeyLocals(s, id, time, reported, key, WriteOf(s, writer), config);
    MoveFits(s, Apply(s, Advance(id, time, reported), config), id, key, writer, config);
  }

  // ---- The remote steps of a write of `key`

  lemma SetWritesS3(s: System, writer: Writer, time: nat, reported: nat, key: string, config: Config)
    requires AllBacked(s, config) && writer.Writer? && Fits(s, key, writer)
        && Enabled(s, Advance(writer.id, time, reported))
        && s.pending[writer.id].SetToS3?
    ensures Fits(Apply(s, Advance(writer.id, time, reported), config), key, writer)
  {
    var s' := Apply(s, Advance(writer.id, time, reported), config);
    FitsCarriesOver(s, s', key, writer, writer, config);
  }

  lemma SetWritesMeta(s: System, writer: Writer, time: nat, reported: nat, key: string, config: Config)
    requires AllBacked(s, config) && writer.Writer? && Fits(s, key, writer)
        && Enabled(s, Advance(writer.id, time, reported))
        && s.pending[writer.id].SetToMeta?
    ensures Fits(Apply(s, Advance(writer.id, time, reported), config), key, writer)
  {
    var s' := Apply(s, Advance(writer.id, time, reported), config);
    FitsCarriesOver(s, s', key, writer, writer, config);
  }

  lemma DeleteWrites(s: System, writer: Writer, time: nat, reported: nat, key: string, config: Config)
    requires AllBacked(s, config) && writer.Writer? && Fits(s, key, writer)
        && Enabled(s, Advance(writer.id, time, reported))
    requires s.pending[writer.id].DeleteInS3? || s.pending[writer.id].DeleteInMeta?
    ensures Fits(Apply(s, Advance(writer.id, time, reported), config), key, writer)
  {
    var s' := Apply(s, Advance(writer.id, time, reported), config);
    FitsCarriesOver(s, s', key, writer, writer, config);
  }

  lemma SetEnds(s: System, writer: Writer, time: nat, reported: nat, key: string, config: Config)
    requires AllBacked(s, config) && writer.Writer? && Fits(s, key, writer)
        && Enabled(s, Advance(writer.id, time, reported))
        && s.pending[writer.id].SetToLocal?
    ensures Fits(Apply(s, Advance(writer.id, time, reported), config), key, NoWriter)
  {
    var op, s' := s.pending[writer.id], Apply(s, Advance(writer.id, time, reported), config);
    PutStaysBounded(s.locals[op.i], key, LocalEntry(op.value, op.revalidatedAt), config.maxSize);
    OneLocalChanges(s, s', op.i, key, None);
    FitsCarriesOver(s, s', key, writer, NoWriter, config);
  }

  lemma DeleteEnds(s: System, writer: Writer, time: nat, reported: nat, key: string, config: Config)
    requires AllBacked(s, config) && writer.Writer? && Fits(s, key, writer)
        && Enabled(s, Advance(writer.id, time, reported))
    requires s.pending[writer.id].DeleteInLocal?
    ensures Fits(Apply(s, Advance(writer.id, time, reported), config), key, NoWriter)
  {
    var s' := Apply(s, Advance(writer.id, time, reported), config);
    OneLocalChanges(s, s', s.pending[writer.id].i, key, None);
    FitsCarriesOver(s, s', key, writer, NoWriter, config);
  }

  // ---- The steps of a get of `key`

  lemma GetReadsMeta(s: System, id: nat, time: nat, reported: nat, key: string, writer: Writer, config: Config)
    requires AllBacked(s, config) && Fits(s, key, writer) && Enabled(s, Advance(id, time, reported))
        && s.pending[id].key == key
    requires s.pending[id].GetFromMeta?
    ensures Fits(Apply(s, Advance(id, time, reported), config), key, writer)
  {
    MoveFits(s, Apply(s, Advance(id, time, reported), config), id, key, writer, config);
  }

  lemma GetReadsS3(s: System, id: nat, time: nat, reported: nat, key: string, writer: Writer, config: Config)
    requires AllBacked(s, config) && Fits(s, key, writer) && Enabled(s, Advance(id, time, reported))
        && s.pending[id].key == key
    requires s.pending[id].GetFromS3?
    ensures Fits(Apply(s, Advance(id, time, reported), config), key, writer)
  {
    if key in s.remote.s3 { ReadFits(s.remote, key, WriteOf(s, writer)); }
    MoveFits(s, Apply(s, Advance(id, time, reported), config), id, key, writer, config);
  }

  lemma GetKeeps(s: System, id: nat, time: nat, reported: nat, key: string, writer: Writer, config: Config)
    requires AllBacked(s, config) && Fits(s, key, writer) && Enabled(s, Advance(id, time, reported))
        && s.pending[id].key == key
    requires s.pending[id].GetToLocal?
    ensures Fits(Apply(s, Advance(id, time, reported), config), key, writer)
  {
    var op, s' := s.pending[id], Apply(s, Advance(id, time, reported), config);
    assert writer.Writer? ==> writer.id != id;
    SameCarries(s.remote, s'.remote, key, WriteOf(s, writer), s.now);
    assert PendingFits(op, s.remote, key, WriteOf(s, writer));
    PutStaysBounded(s.locals[op.i], key, EntryOf(op.item), config.maxSize);
    FitsCarriesOver(s, s', key, writer, writer, config);
  }

  lemma AdvanceFits(s: System, id: nat, time: nat, reported: nat, key: string, writer: Writer, config: Config)
    requires AllBacked(s, config) && Fits(s, key, writer) && Enabled(s, Advance(id, time, reported))
    ensures Fits(Apply(s, Advance(id, time, reported), config), key,
                 NextWriter(s, Advance(id, time, reported), key, writer))
  {
    var op := s.pending[id];
    if op.key != key {
      OtherKeyFits(s, id, time, reported, key, writer, config);
    } else {
      match op
      case SetToS3(_, _, _, _) => SetWritesS3(s, writer, time, reported, key, config);
      case SetToMeta(_, _, _, _) => SetWritesMeta(s, writer, time, reported, key, config);
      case DeleteInS3(_, _) => DeleteWrites(s, writer, time, reported, key, config);
      case DeleteInMeta(_, _) => DeleteWrites(s, writer, time, reported, key, config);
      case SetToLocal(_, _, _, _) => SetEnds(s, writer, time, reported, key, config);
      case DeleteInLocal(_, _) => DeleteEnds(s, writer, time, reported, key, config);
      case GetToLocal(_, _, _) => GetKeeps(s, id, time, reported, key, writer, config);
      case GetFromMeta(_, _, _) => GetReadsMeta(s, id, time, reported, key, writer, config);
      case GetFromS3(_, _) => GetReadsS3(s, id, time, reported, key, writer, config);
    }
  }

  // ---- The other steps

  lemma BeginFits(s: System, step: Step, key: string, writer: Writer, config: Config)
    requires AllBacked(s, config) && Fits(s, key, writer) && Enabled(s, step) && Exclusive(s, step, key)
    requires step.BeginSet? || step.BeginDelete?
    ensures Fits(Apply(s, step, config), key, NextWriter(s, step, key, writer))
  {
    NothingIsLater(s, config, key);
    FitsCarriesOver(s, Apply(s, step, config), key, writer, NextWriter(s, step, key, writer), config);
  }

  lemma BeginGetLocals(s: System, id: nat, i: nat, k: string, time: nat, key: string, write: Option<Out>,
                       config: Config)
    requires AllBacked(s, config) && Enabled(s, BeginGet(id, i, k, time))
    ensures LocalsComeFrom(s, Apply(s, BeginGet(id, i, k, time), config), key, write)
  {
    TouchedStaysBounded(s.locals[i], k, config.maxSize);
    OneLocalChanges(s, Apply(s, BeginGet(id, i, k, time), config), i, key, write);
  }

  lemma BeginGetMoves(s: System, id: nat, i: nat, k: string, time: nat, key: string, write: Option<Out>, config: Config)
    requires Enabled(s, BeginGet(id, i, k, time)) && LocalsFit(s, key, write)
    ensures OnlyMoves(s, Apply(s, BeginGet(id, i, k, time), config), id, key, write)
  {
    assert LocalFits(s.locals[i], s.remote, key, write);
  }

  lemma BeginGetFits(s: System, id: nat, i: nat, k: string, time: nat, key: string, writer: Writer, config: Config)
    requires AllBacked(s, config) && Fits(s, key, writer) && Enabled(s, BeginGet(id, i, k, time))
    ensures Fits(Apply(s, BeginGet(id, i, k, time), config), key, writer)
  {
    BeginGetLocals(s, id, i, k, time, key, WriteOf(s, writer), config);
    BeginGetMoves(s, id, i, k, time, key, WriteOf(s, writer), config);
    MoveFits(s, Apply(s, BeginGet(id, i, k, time), config), id, key, writer, config);
  }

  lemma MetaFailsFits(s: System, id: nat, time: nat, key: string, writer: Writer, config: Config)
    requires AllBacked(s, config) && Fits(s, key, writer) && Enabled(s, MetaFails(id, time))
    ensures Fits(Apply(s, MetaFails(id, time), config), key, writer)
  {
    MoveFits(s, Apply(s, MetaFails(id, time), config), id, key, writer, config);
  }

  /** A write that is given up before or after its two remote writes leaves things as if it had ended. */
  lemma GivingUpCarries(remote: Remote, key: string, out: Out, now: nat)
    requires IsWriteOf(out.op, key) && !HalfWritten(out.op, key) && RemoteFits(remote, key, Some(out))
    ensures RemoteFits(remote, key, None) && Carries(remote, remote, key, Some(out), None, now)
  {
  }

  lemma DropFits(s: System, s': System, key: string, writer: Writer, writer': Writer, config: Config)
    requires AllBacked(s, config) && Fits(s, key, writer) && s'.remote == s.remote && |s'.locals| == |s.locals|
    requires forall i :: 0 <= i < |s.locals| ==> s'.locals[i] == s.locals[i] || s'.locals[i] == EmptyLru()
    requires forall id :: id in s'.pending ==> id in s.pending && s'.pending[id] == s.pending[id]
    requires forall id :: id in s.pending && id !in s'.pending ==> !HalfWritten(s.pending[id], key)
    requires writer' == if writer.Writer? && writer.id !in s'.pending then NoWriter else writer
    ensures Fits(s', key, writer')
  {
    if writer' == writer {
      SameCarries(s.remote, s.remote, key, WriteOf(s, writer), s.now);
    } else {
      GivingUpCarries(s.remote, key, WriteOf(s, writer).value, s.now);
    }
    FitsCarriesOver(s, s', key, writer, writer', config);
  }

  lemma StepFits(s: System, step: Step, key: string, writer: Writer, config: Config)
    requires AllBacked(s, config) && Fits(s, key, writer) && Enabled(s, step) && Exclusive(s, step, key)
    ensures Fits(Apply(s, step, config), key, NextWriter(s, step, key, writer))
  {
    match step
    case BeginSet(_, _, _, _, _) => BeginFits(s, step, key, writer, config);
    case BeginDelete(_, _, _) => BeginFits(s, step, key, writer, config);
    case BeginGet(id, i, k, time) => BeginGetFits(s, id, i, k, time, key, writer, config);
    case Advance(id, time, reported) => AdvanceFits(s, id, time, reported, key, writer, config);
    case MetaFails(id, time) => MetaFailsFits(s, id, time, key, writer, config);
    case Abandon(id) => DropFits(s, Apply(s, step, config), key, writer, NextWriter(s, step, key, writer), config);
    case Restart(i) => DropFits(s, Apply(s, step, config), key, writer, NextWriter(s, step, key, writer), config);
  }

  // ---- Runs

  ghost function RunWriter(s: System, steps: seq<Step>, key: string, writer: Writer, config: Config): Writer
    requires Run(s, steps, config).Some?
    decreases |steps|
  {
    if steps == [] then writer
    else RunWriter(Apply(s, steps[0], config), steps[1..], key, NextWriter(s, steps[0], key, writer), config)
  }

  lemma {:induction false} ExclusiveRunFits(s: System, steps: seq<Step>, key: string, writer: Writer, config: Config)
    requires AllBacked(s, config) && Fits(s, key, writer) && Run(s, steps, config).Some?
    requires ExclusiveRun(s, steps, key, config)
    ensures Fits(Run(s, steps, config).value, key, RunWriter(s, steps, key, writer, config))
    decreases |steps|
  {
    if steps != [] {
      StepKeepsBacked(s, steps[0], config);
      StepFits(s, steps[0], key, writer, config);
      ExclusiveRunFits(Apply(s, steps[0], config), steps[1..], key, NextWriter(s, steps[0], key, writer), config);
    }
  }

  /**
   No time to live, and writes of `key` that neither overlap nor are given up half way: whenever none of them is out, a
   lookup on any instance has the value S3 holds, however gets overlap and whatever becomes of other keys.
   */
  lemma LookupEqualsS3(s: System, steps: seq<Step>, config: Config, i: int, key: string, now: nat, metaAnswers: bool)
    requires Initial(s) && (key in s.remote.s3 ==> !MarkedDeleted(s.remote, key))
    requires Run(s, steps, config).Some? && ExclusiveRun(s, steps, key, config) && config.ttl <= 0
    requires var end := Run(s, steps, config).value;
             NoWriteOf(end, key) && 0 <= i < |end.locals| && end.now <= now
    ensures var end := Run(s, steps, config).value;
            ValueOf(Lookup(end.locals[i], end.remote, key, now, metaAnswers, config).0) == S3Value(end.remote, key)
  {
    assert Fits(s, key, NoWriter);
    ExclusiveRunFits(s, steps, key, NoWriter, config);
    RunKeepsBacked(s, steps, config);
    var writer := RunWriter(s, steps, key, NoWriter, config);
    SettledLookup(Run(s, steps, config).value, writer, config, i, key, now, metaAnswers);
  }

  lemma SettledLookup(s: System, writer: Writer, config: Config, i: int, key: string, now: nat, metaAnswers: bool)
    requires AllBacked(s, config) && Fits(s, key, writer) && NoWriteOf(s, key)
    requires 0 <= i < |s.locals| && s.now <= now && config.ttl <= 0
    ensures ValueOf(Lookup(s.locals[i], s.remote, key, now, metaAnswers, config).0) == S3Value(s.remote, key)
  {
    NothingIsLater(s, config, key);
    assert writer == NoWriter;
    assert LocalFits(s.locals[i], s.remote, key, None);
  }
}
