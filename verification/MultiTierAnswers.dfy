/**
 What a get answers whose own steps are interleaved with everything else, with no time to live and writes of its key
 that do not overlap each other: S3's value at some instant since it began, or since the write then out began.
 */
module MultiTierAnswers {
  import opened Wrappers
  import opened CacheTypes
  import opened MultiTier
  import opened MultiTierSteps
  import opened MultiTierExclusive

  predicate IsGetOf(op: Pending, key: string) {
    op.key == key && (op.GetFromMeta? || op.GetFromS3? || op.GetToLocal?)
  }

  /** The answer a step gives to get `id` of `key`, when it is the last one of the get. */
  function AnswerOf(s: System, step: Step, id: nat, key: string, config: Config): Option<GetResult> {
    match step
    case BeginGet(id', i, k, time) =>
      if id' == id && k == key && i < |s.locals| && key in s.locals[i].data
          && FreshLocally(s.locals[i].data[key], time, config)
      then Some(Found(s.locals[i].data[key].value, s.locals[i].data[key].lastModified)) else None
    case Advance(id', _, _) =>
      if id' != id || id !in s.pending || s.pending[id].key != key then None else LastAnswer(s, s.pending[id])
    case _ => None
  }

  function LastAnswer(s: System, op: Pending): Option<GetResult> {
    match op
    case GetFromMeta(_, key, entry) =>
      if MarkedDeleted(s.remote, key) then Some(Deleted)
      else if MetaAllows(s.remote, key, entry) then Some(Found(entry.value, entry.lastModified))
      else None
    case GetFromS3(_, key) => if key in s.remote.s3 then None else Some(NotFound)
    case GetToLocal(_, _, item) => Some(Found(item.value, item.lastModified))
    case _ => None
  }

  /** From when on the answer of each get of the key counts: its own begin, or that of the write that was out then. */
  function NextSince(step: Step, key: string, writer: Writer, since: map<nat, nat>): map<nat, nat> {
    match step
    case BeginGet(id, _, k, time) =>
      if k == key then since[id := if writer.Writer? then writer.began else time] else since
    case _ => since
  }

  ghost function RunSince(s: System, steps: seq<Step>, key: string, writer: Writer, since: map<nat, nat>,
                          config: Config)
    : map<nat, nat>
    requires Run(s, steps, config).Some?
    decreases |steps|
  {
    if steps == [] then since
    else RunSince(Apply(s, steps[0], config), steps[1..], key, NextWriter(s, steps[0], key, writer),
                  NextSince(steps[0], key, writer, since), config)
  }

  /** At some instant from `start` to `end` S3 held `value`. */
  ghost predicate Shown(history: seq<Event>, key: string, start: nat, end: nat, value: Option<CachedFile>) {
    exists instant :: start <= instant <= end && S3At(history, key, instant) == value
  }

  // ---- S3 over time

  lemma {:induction false} NothingAfter(history: seq<Event>, key: string, now: nat, later: nat)
    requires InOrder(history, now) && now <= later
    ensures S3At(history, key, later) == S3At(history, key, now)
  {
    if history != [] {
      NothingAfter(history[..|history| - 1], key, now, later);
    }
  }

  lemma EventLater(history: seq<Event>, event: Event, key: string, instant: nat)
    requires instant < event.at
    ensures S3At(history + [event], key, instant) == S3At(history, key, instant)
  {
    assert (history + [event])[..|history|] == history;
  }

  lemma EventNow(history: seq<Event>, event: Event, key: string, now: nat)
    requires InOrder(history, now) && now < event.at
    ensures S3At(history + [event], key, event.at) == if event.key == key then event.value else S3At(history, key, now)
  {
    assert (history + [event])[..|history|] == history;
    NothingAfter(history, key, now, event.at);
  }

  /** `history'` is `history`, perhaps with one event later than `now`. */
  ghost predicate Extends(history: seq<Event>, history': seq<Event>, now: nat) {
    history' == history || exists event: Event :: now < event.at && history' == history + [event]
  }

  lemma ShownStays(history: seq<Event>, history': seq<Event>, now: nat, key: string, start: nat, end: nat, end': nat,
                   value: Option<CachedFile>)
    requires Extends(history, history', now) && Shown(history, key, start, end, value) && end <= now && end <= end'
    ensures Shown(history', key, start, end', value)
  {
    var instant :| start <= instant <= end && S3At(history, key, instant) == value;
    SameInstant(history, history', now, key, instant);
  }

  lemma SameInstant(history: seq<Event>, history': seq<Event>, now: nat, key: string, instant: nat)
    requires Extends(history, history', now) && instant <= now
    ensures S3At(history', key, instant) == S3At(history, key, instant)
  {
    if history' != history {
      var event: Event :| now < event.at && history' == history + [event];
      EventLater(history, event, key, instant);
    }
  }

  // ---- What is known about the gets that are out

  ghost predicate HistoryIsRight(s: System, key: string) {
    S3At(s.history, key, s.now) == S3Value(s.remote, key)
  }

  ghost predicate WriterIsRight(s: System, key: string, writer: Writer) {
    writer.Writer? ==> writer.began <= s.now && S3At(s.history, key, writer.began) == writer.before
  }

  /** A get can still show what S3 held before a half-done write, and what it has read itself. */
  ghost predicate GetIsRight(s: System, key: string, writer: Writer, start: nat, op: Pending) {
    && start <= s.now
    && (writer.Writer? && writer.id in s.pending && HalfWritten(s.pending[writer.id], key) ==>
          Shown(s.history, key, start, s.now, writer.before))
    && (op.GetToLocal? ==> Shown(s.history, key, start, s.now, Some(op.item.value)))
  }

  ghost predicate GetsAreRight(s: System, key: string, writer: Writer, since: map<nat, nat>) {
    forall id :: id in s.pending && IsGetOf(s.pending[id], key) ==>
      id in since && GetIsRight(s, key, writer, since[id], s.pending[id])
  }

  ghost predicate Right(s: System, key: string, writer: Writer, since: map<nat, nat>) {
    HistoryIsRight(s, key) && WriterIsRight(s, key, writer) && GetsAreRight(s, key, writer, since)
  }

  /** The answer of a get was S3's value at an instant that counts. */
  lemma AnswerIsShown(s: System, step: Step, id: nat, key: string, writer: Writer, since: map<nat, nat>, config: Config)
    requires AllBacked(s, config) && Fits(s, key, writer) && Right(s, key, writer, since) && config.ttl <= 0
    requires Enabled(s, step) && AnswerOf(s, step, id, key, config).Some?
    ensures id in since && Shown(s.history, key, since[id], s.now, ValueOf(AnswerOf(s, step, id, key, config).value))
  {
    NothingIsLater(s, config, key);
    assert step.Advance?;
    var op := s.pending[id];
    assert PendingFits(op, s.remote, key, WriteOf(s, writer));
    assert GetIsRight(s, key, writer, since[id], op);
    assert Shown(s.history, key, since[id], s.now, S3Value(s.remote, key));
    if op.GetFromMeta? { MetaAnswerIsRight(s, op, key, writer, config); }
  }

  /** DynamoDB's word for an entry: S3's value now, or before the write that is half done. */
  lemma MetaAnswerIsRight(s: System, op: Pending, key: string, writer: Writer, config: Config)
    requires Fits(s, key, writer) && op.GetFromMeta? && op.key == key
    requires EntryFits(s.remote, key, WriteOf(s, writer), op.entry) && LastAnswer(s, op).Some?
    ensures var value := ValueOf(LastAnswer(s, op).value);
            || value == S3Value(s.remote, key)
            || (&& writer.Writer? && writer.id in s.pending && HalfWritten(s.pending[writer.id], key)
                && value == writer.before)
  {
  }

  // ---- Every step keeps it

  lemma StepExtends(s: System, step: Step, config: Config)
    requires Enabled(s, step)
    ensures var s' := Apply(s, step, config); s.now <= s'.now && Extends(s.history, s'.history, s.now)
  {
    if step.Advance? {
      var event := Event(step.time, s.pending[step.id].key, None);
      var other := event.(value := if s.pending[step.id].SetToS3? then Some(s.pending[step.id].value) else None);
      assert s.now < event.at && s.now < other.at;
    }
  }

  lemma AdvanceKeepsHistoryRight(s: System, id: nat, time: nat, reported: nat, key: string, config: Config)
    requires InOrder(s.history, s.now) && Enabled(s, Advance(id, time, reported)) && HistoryIsRight(s, key)
    ensures HistoryIsRight(Apply(s, Advance(id, time, reported), config), key)
  {
    var op := s.pending[id];
    if op.SetToS3? {
      EventNow(s.history, Event(time, op.key, Some(op.value)), key, s.now);
    } else if op.DeleteInS3? {
      EventNow(s.history, Event(time, op.key, None), key, s.now);
    } else {
      NothingAfter(s.history, key, s.now, time);
    }
  }

  lemma StepKeepsHistoryRight(s: System, step: Step, key: string, config: Config)
    requires InOrder(s.history, s.now) && Enabled(s, step) && HistoryIsRight(s, key)
    ensures HistoryIsRight(Apply(s, step, config), key)
  {
    match step
    case Advance(id, time, reported) => AdvanceKeepsHistoryRight(s, id, time, reported, key, config);
    case BeginSet(_, _, _, _, time) => NothingAfter(s.history, key, s.now, time);
    case BeginGet(_, _, _, time) => NothingAfter(s.history, key, s.now, time);
    case MetaFails(_, time) => NothingAfter(s.history, key, s.now, time);
    case _ =>
  }

  lemma StepKeepsWriterRight(s: System, step: Step, key: string, writer: Writer, config: Config)
    requires InOrder(s.history, s.now) && Enabled(s, step) && HistoryIsRight(s, key) && WriterIsRight(s, key, writer)
    ensures WriterIsRight(Apply(s, step, config), key, NextWriter(s, step, key, writer))
  {
    StepExtends(s, step, config);
    if step.BeginSet? && step.key == key {
      NothingAfter(s.history, key, s.now, step.time);
    } else if writer.Writer? {
      SameInstant(s.history, Apply(s, step, config).history, s.now, key, writer.began);
    }
  }

  /** What may become of a get: it begins, goes on, reads S3, or stays as it is. */
  lemma GetMoves(s: System, step: Step, id: nat, key: string, config: Config)
    requires Enabled(s, step) && id in Apply(s, step, config).pending
        && IsGetOf(Apply(s, step, config).pending[id], key)
    ensures var op' := Apply(s, step, config).pending[id];
            || (step.BeginGet? && step.id == id && step.key == key && !op'.GetToLocal?)
            || (&& id in s.pending && IsGetOf(s.pending[id], key) && !(step.BeginGet? && step.id == id)
                && (op'.GetToLocal? ==> s.pending[id] == op' || S3Value(s.remote, key) == Some(op'.item.value)))
  {
  }

  /** A write is half done after a step when it was so before, or when the step was its S3 write. */
  lemma HalfWrittenMeans(s: System, step: Step, key: string, writer: Writer, config: Config)
    requires Enabled(s, step) && Exclusive(s, step, key) && Fits(s, key, writer)
    requires var writer' := NextWriter(s, step, key, writer);
             var s' := Apply(s, step, config);
             writer'.Writer? && writer'.id in s'.pending && HalfWritten(s'.pending[writer'.id], key)
    ensures NextWriter(s, step, key, writer) == writer && writer.id in s.pending
    ensures HalfWritten(s.pending[writer.id], key) || writer.before == S3Value(s.remote, key)
  {
    assert IsWriteOf(Apply(s, step, config).pending[NextWriter(s, step, key, writer).id], key);
  }

  lemma GetShowsBefore(s: System, step: Step, id: nat, key: string, writer: Writer, since: map<nat, nat>,
                       config: Config)
    requires AllBacked(s, config) && Enabled(s, step) && Exclusive(s, step, key)
    requires Fits(s, key, writer) && Right(s, key, writer, since)
    requires id in Apply(s, step, config).pending && IsGetOf(Apply(s, step, config).pending[id], key)
    requires var writer' := NextWriter(s, step, key, writer);
             var s' := Apply(s, step, config);
             writer'.Writer? && writer'.id in s'.pending && HalfWritten(s'.pending[writer'.id], key)
    ensures var since' := NextSince(step, key, writer, since);
            var s' := Apply(s, step, config);
            id in since' && Shown(s'.history, key, since'[id], s'.now, writer.before)
  {
    var s' := Apply(s, step, config);
    StepExtends(s, step, config);
    GetMoves(s, step, id, key, config);
    HalfWrittenMeans(s, step, key, writer, config);
    if step.BeginGet? && step.id == id {
      SameInstant(s.history, s'.history, s.now, key, writer.began);
    } else {
      assert GetIsRight(s, key, writer, since[id], s.pending[id]);
      assert !HalfWritten(s.pending[writer.id], key) ==> S3At(s.history, key, s.now) == writer.before;
      assert Shown(s.history, key, since[id], s.now, writer.before);
      ShownStays(s.history, s'.history, s.now, key, since[id], s.now, s'.now, writer.before);
    }
  }

  lemma GetShowsItem(s: System, step: Step, id: nat, key: string, writer: Writer, since: map<nat, nat>, config: Config)
    requires AllBacked(s, config) && Enabled(s, step) && Right(s, key, writer, since)
    requires var s' := Apply(s, step, config);
             id in s'.pending && IsGetOf(s'.pending[id], key) && s'.pending[id].GetToLocal?
    ensures var since' := NextSince(step, key, writer, since);
            var s' := Apply(s, step, config);
            id in since' && Shown(s'.history, key, since'[id], s'.now, Some(s'.pending[id].item.value))
  {
    var s' := Apply(s, step, config);
    var value := Some(s'.pending[id].item.value);
    StepExtends(s, step, config);
    GetMoves(s, step, id, key, config);
    assert GetIsRight(s, key, writer, since[id], s.pending[id]);
    if s.pending[id] != s'.pending[id] {
      assert S3At(s.history, key, s.now) == value;
    }
    assert Shown(s.history, key, since[id], s.now, value);
    ShownStays(s.history, s'.history, s.now, key, since[id], s.now, s'.now, value);
  }

  lemma StepKeepsGetsRight(s: System, step: Step, key: string, writer: Writer, since: map<nat, nat>, config: Config)
    requires AllBacked(s, config) && Enabled(s, step) && Exclusive(s, step, key)
    requires Fits(s, key, writer) && Right(s, key, writer, since)
    ensures GetsAreRight(Apply(s, step, config), key, NextWriter(s, step, key, writer),
                         NextSince(step, key, writer, since))
  {
    var s', writer' := Apply(s, step, config), NextWriter(s, step, key, writer);
    StepExtends(s, step, config);
    forall id | id in s'.pending && IsGetOf(s'.pending[id], key)
      ensures id in NextSince(step, key, writer, since)
      ensures GetIsRight(s', key, writer', NextSince(step, key, writer, since)[id], s'.pending[id])
    {
      GetMoves(s, step, id, key, config);
      if !(step.BeginGet? && step.id == id) { assert GetIsRight(s, key, writer, since[id], s.pending[id]); }
      if writer'.Writer? && writer'.id in s'.pending && HalfWritten(s'.pending[writer'.id], key) {
        HalfWrittenMeans(s, step, key, writer, config);
        GetShowsBefore(s, step, id, key, writer, since, config);
      }
      if s'.pending[id].GetToLocal? {
        GetShowsItem(s, step, id, key, writer, since, config);
      }
    }
  }

  lemma {:induction false} RunKeepsRight(s: System, steps: seq<Step>, key: string, writer: Writer, since: map<nat, nat>,
                                         config: Config)
    requires AllBacked(s, config) && Fits(s, key, writer) && Right(s, key, writer, since)
    requires Run(s, steps, config).Some? && ExclusiveRun(s, steps, key, config)
    ensures Right(Run(s, steps, config).value, key, RunWriter(s, steps, key, writer, config),
                  RunSince(s, steps, key, writer, since, config))
    decreases |steps|
  {
    if steps != [] {
      var step := steps[0];
      StepKeepsBacked(s, step, config);
      StepFits(s, step, key, writer, config);
      StepKeepsHistoryRight(s, step, key, config);
      StepKeepsWriterRight(s, step, key, writer, config);
      StepKeepsGetsRight(s, step, key, writer, since, config);
      RunKeepsRight(Apply(s, step, config), steps[1..], key, NextWriter(s, step, key, writer),
                    NextSince(step, key, writer, since), config);
    }
  }

  /**
   Over every run: whatever a get answers, with all of its steps interleaved, was S3's value at some instant since the
   get began, or since the write of the key that was out when it began. Writes of the key overlap gets, not each other.
   */
  lemma EveryAnswerWasInS3(s: System, steps: seq<Step>, step: Step, id: nat, key: string, config: Config)
    requires Initial(s) && HistoryIsRight(s, key) && (key in s.remote.s3 ==> !MarkedDeleted(s.remote, key))
    requires Run(s, steps, config).Some? && ExclusiveRun(s, steps, key, config) && config.ttl <= 0
    requires Enabled(Run(s, steps, config).value, step)
    requires AnswerOf(Run(s, steps, config).value, step, id, key, config).Some?
    ensures var end, since := Run(s, steps, config).value, RunSince(s, steps, key, NoWriter, map[], config);
            && id in since
            && Shown(end.history, key, since[id], end.now, ValueOf(AnswerOf(end, step, id, key, config).value))
  {
    assert Fits(s, key, NoWriter);
    ExclusiveRunFits(s, steps, key, NoWriter, config);
    RunKeepsBacked(s, steps, config);
    RunKeepsRight(s, steps, key, NoWriter, map[], config);
    AnswerIsShown(Run(s, steps, config).value, step, id, key, RunWriter(s, steps, key, NoWriter, config),
                  RunSince(s, steps, key, NoWriter, map[], config), config);
  }
}
