/**
 A whole operation of the multi-tier cache, case by case and with the dates it answers, and as the single steps it is
 made of when nothing comes between them.
 */
module MultiTierWhole {
  import opened Wrappers
  import opened CacheTypes
  import opened LruModel
  import opened MultiTier
  import opened MultiTierSteps
  import opened MultiTierOverlap
  import opened MultiTierAnswers

  // ---- What a lookup answers

  /** A read of S3: its object with its own date, kept locally; or not found. */
  ghost predicate ReadsS3(local: Lru<LocalEntry>, remote: Remote, key: string, answer: (GetResult, Lru<LocalEntry>)) {
    if key in remote.s3 then
      && answer.0 == Found(remote.s3[key].value, remote.s3[key].lastModified)
      && key in answer.1.data
      && answer.1.data[key] == LocalEntry(remote.s3[key].value, remote.s3[key].lastModified)
    else answer.0 == NotFound && answer.1.data == local.data
  }

  /**
   Case by case. A young entry is answered with its date, whatever DynamoDB and S3 hold; an older one as well when
   DynamoDB has no row or one no younger; a row marked deleted is answered as deleted and drops the entry; in all other
   cases, also when DynamoDB does not answer, S3 is read.
   */
  lemma LookupMeans(local: Lru<LocalEntry>, remote: Remote, key: string, now: nat, metaAnswers: bool, config: Config)
    requires Bounded(local, config.maxSize)
    ensures var answer := Lookup(local, remote, key, now, metaAnswers, config);
            if key !in local.data then ReadsS3(local, remote, key, answer)
            else
              var e := local.data[key];
              var row := if key in remote.meta then Some(remote.meta[key]) else None;
              if now < e.lastModified + config.ttl then
                answer.0 == Found(e.value, e.lastModified) && answer.1.data == local.data
              else if metaAnswers && row == Some(DeletedMark) then
                answer.0 == Deleted && answer.1.data == local.data - {key}
              else if metaAnswers && (row.None? || row.value.at <= e.lastModified) then
                answer.0 == Found(e.value, e.lastModified) && answer.1.data == local.data
              else ReadsS3(local, remote, key, answer)
  {
    TouchedStaysBounded(local, key, config.maxSize);
    if key in remote.s3 {
      var item := remote.s3[key];
      PutStaysBounded(Touched(local, key), key, LocalEntry(item.value, item.lastModified), config.maxSize);
    }
  }

  /** A get on the instance that has just set the key answers the value with the timestamp the set took. */
  lemma OwnSetIsAnswered(local: Lru<LocalEntry>, remote: Remote, key: string, value: CachedFile, start: nat, end: nat,
                         config: Config, local': Lru<LocalEntry>, remote': Remote, now: nat)
    requires Bounded(local, config.maxSize) && WasSet(local, remote, key, value, start, end, config, local', remote')
    ensures exists at: nat :: start < at <= end && Lookup(local', remote', key, now, true, config).0 == Found(value, at)
  {
    var at: nat, reported: nat :| start < at <= end && reported <= end
      && AfterSet(local, remote, key, value, at, reported, config) == (local', remote');
    PutStaysBounded(local, key, LocalEntry(value, at), config.maxSize);
    assert Lookup(local', remote', key, now, true, config).0 == Found(value, at);
  }

  /** After a set every instance without an entry finds the value in S3, and every one with an older entry as well. */
  lemma SetIsSeenElsewhere(local: Lru<LocalEntry>, remote: Remote, key: string, value: CachedFile, start: nat, end: nat,
                           config: Config, local': Lru<LocalEntry>, remote': Remote, other: Lru<LocalEntry>, now: nat)
    requires WasSet(local, remote, key, value, start, end, config, local', remote')
    requires key in other.data ==>
        other.data[key].lastModified <= start && other.data[key].lastModified + config.ttl <= now
    ensures ValueOf(Lookup(other, remote', key, now, true, config).0) == Some(value)
  {
    var at: nat, reported: nat :| start < at <= end && reported <= end
      && AfterSet(local, remote, key, value, at, reported, config) == (local', remote');
  }

  /** After a delete an instance with an entry answers that it is deleted, one without that there is none. */
  lemma DeleteIsSeen(local: Lru<LocalEntry>, remote: Remote, key: string, other: Lru<LocalEntry>, now: nat,
                     config: Config)
    requires key in other.data ==> other.data[key].lastModified + config.ttl <= now
    ensures var (local', remote') := AfterDelete(local, remote, key);
            && key !in local'.data
            && Lookup(other, remote', key, now, true, config).0 == (if key in other.data then Deleted else NotFound)
  {
  }

  // ---- Any answer, interleaved or not, has its date

  /** What the last step of a get answers is an entry some set stamped or an object S3 has held, with its date. */
  lemma AnswerIsAnEntry(s: System, steps: seq<Step>, key: string, config: Config, end: System, log: Log,
                        step: Step, id: nat)
    requires Reached(s, steps, key, config, end, log) && Enabled(end, step)
    requires AnswerOf(end, step, id, key, config).Some?
    ensures var result := AnswerOf(end, step, id, key, config).value;
            result.Found? ==> LocalEntry(result.value, result.lastModified) in Entries(log)
  {
    ReachedIsLogged(s, steps, key, config, end, log);
    if step.Advance? {
      assert OpLogged(end.pending[id], key, log);
    }
  }

  // ---- Operations whose steps nothing interrupts

  lemma RunOne(s: System, step: Step, config: Config)
    requires Enabled(s, step)
    ensures Run(s, [step], config) == Some(Apply(s, step, config))
  {
    assert [step][1..] == [];
  }

  /** `steps` lead from `s` to `before`, and `last` from there to `end`, where it gives get `id` its answer. */
  ghost predicate Gives(s: System, steps: seq<Step>, before: System, last: Step, end: System, id: nat, key: string,
                        result: GetResult, config: Config) {
    && Run(s, steps, config) == Some(before)
    && Enabled(before, last) && end == Apply(before, last, config)
    && AnswerOf(before, last, id, key, config) == Some(result)
  }

  /** Nothing has changed but the clock and one local cache. */
  predicate OnlyLocal(s: System, end: System, i: nat, local: Lru<LocalEntry>) {
    i < |s.locals| && end == s.(now := end.now, locals := s.locals[i := local])
  }

  lemma Given(s: System, steps: seq<Step>, step: Step, before: System, last: Step, end: System, id: nat, key: string,
              result: GetResult, config: Config)
    requires Enabled(s, step) && Gives(Apply(s, step, config), steps, before, last, end, id, key, result, config)
    ensures Gives(s, [step] + steps, before, last, end, id, key, result, config)
  {
    assert ([step] + steps)[1..] == steps;
  }

  /** From the point where S3 is to be read. */
  lemma ReadUninterrupted(s: System, id: nat, i: nat, key: string, config: Config)
    returns (steps: seq<Step>, before: System, last: Step, end: System)
    requires id in s.pending && s.pending[id] == GetFromS3(i, key) && i < |s.locals|
    ensures var (result, local) := ReadThrough(s.locals[i], s.remote, key, config);
            && Gives(s, steps, before, last, end, id, key, result, config)
            && OnlyLocal(s.(pending := s.pending - {id}), end, i, local)
  {
    var read := Advance(id, s.now + 1, 0);
    if key in s.remote.s3 {
      before, last := Apply(s, read, config), Advance(id, s.now + 2, 0);
      RunOne(s, read, config);
      steps, end := [read], Apply(before, last, config);
      assert end.pending == s.pending - {id};
    } else {
      steps, before, last := [], s, read;
      end := Apply(s, read, config);
      assert s.locals[i := s.locals[i]] == s.locals;
    }
  }

  /** From the point where DynamoDB is to be asked. */
  lemma AskUninterrupted(s: System, id: nat, i: nat, key: string, entry: LocalEntry, metaAnswers: bool, config: Config)
    returns (steps: seq<Step>, before: System, last: Step, end: System)
    requires id in s.pending && s.pending[id] == GetFromMeta(i, key, entry) && i < |s.locals|
    ensures var (result, local) :=
              if metaAnswers && MarkedDeleted(s.remote, key) then (Deleted, Removed(s.locals[i], key))
              else if metaAnswers && MetaAllows(s.remote, key, entry) then
                (Found(entry.value, entry.lastModified), s.locals[i])
              else ReadThrough(s.locals[i], s.remote, key, config);
            && Gives(s, steps, before, last, end, id, key, result, config)
            && OnlyLocal(s.(pending := s.pending - {id}), end, i, local)
  {
    var ask := if metaAnswers then Advance(id, s.now + 1, 0) else MetaFails(id, s.now + 1);
    if metaAnswers && (MarkedDeleted(s.remote, key) || MetaAllows(s.remote, key, entry)) {
      steps, before, last := [], s, ask;
      end := Apply(s, ask, config);
      assert s.locals[i := s.locals[i]] == s.locals;
    } else {
      var asked := Apply(s, ask, config);
      assert asked == s.(now := s.now + 1, pending := s.pending[id := GetFromS3(i, key)]);
      steps, before, last, end := ReadUninterrupted(asked, id, i, key, config);
      Given(s, steps, ask, before, last, end, id, key, ReadThrough(s.locals[i], s.remote, key, config).0, config);
      steps := [ask] + steps;
      assert asked.pending - {id} == s.pending - {id};
    }
  }

  lemma GetWithoutEntry(s: System, id: nat, i: nat, key: string, time: nat, metaAnswers: bool, config: Config)
    returns (steps: seq<Step>, before: System, last: Step, end: System)
    requires Enabled(s, BeginGet(id, i, key, time)) && key !in s.locals[i].data
    ensures var (result, local) := Lookup(s.locals[i], s.remote, key, time, metaAnswers, config);
            Gives(s, steps, before, last, end, id, key, result, config) && OnlyLocal(s, end, i, local)
  {
    var begin := BeginGet(id, i, key, time);
    var begun := Apply(s, begin, config);
    assert s.locals[i := s.locals[i]] == s.locals;
    assert begun == s.(now := time, pending := s.pending[id := GetFromS3(i, key)]);
    steps, before, last, end := ReadUninterrupted(begun, id, i, key, config);
    Given(s, steps, begin, before, last, end, id, key, ReadThrough(s.locals[i], s.remote, key, config).0, config);
    steps := [begin] + steps;
    assert begun.pending - {id} == s.pending;
  }

  lemma GetWithOldEntry(s: System, id: nat, i: nat, key: string, time: nat, metaAnswers: bool, config: Config)
    returns (steps: seq<Step>, before: System, last: Step, end: System)
    requires Enabled(s, BeginGet(id, i, key, time)) && key in s.locals[i].data
    requires !FreshLocally(s.locals[i].data[key], time, config)
    ensures var (result, local) := Lookup(s.locals[i], s.remote, key, time, metaAnswers, config);
            Gives(s, steps, before, last, end, id, key, result, config) && OnlyLocal(s, end, i, local)
  {
    var begin, entry := BeginGet(id, i, key, time), s.locals[i].data[key];
    var touched := Touched(s.locals[i], key);
    var begun := s.(now := time, locals := s.locals[i := touched],
                    pending := s.pending[id := GetFromMeta(i, key, entry)]);
    assert begun == Apply(s, begin, config);
    steps, before, last, end := AskUninterrupted(begun, id, i, key, entry, metaAnswers, config);
    Given(s, steps, begin, before, last, end, id, key,
          Lookup(s.locals[i], s.remote, key, time, metaAnswers, config).0, config);
    steps := [begin] + steps;
    assert begun.pending - {id} == s.pending;
  }

  lemma GetWithYoungEntry(s: System, id: nat, i: nat, key: string, time: nat, metaAnswers: bool, config: Config)
    requires Enabled(s, BeginGet(id, i, key, time)) && key in s.locals[i].data
    requires FreshLocally(s.locals[i].data[key], time, config)
    ensures var (result, local) := Lookup(s.locals[i], s.remote, key, time, metaAnswers, config);
            var end := Apply(s, BeginGet(id, i, key, time), config);
            && Gives(s, [], s, BeginGet(id, i, key, time), end, id, key, result, config)
            && OnlyLocal(s, end, i, local)
  {
  }

  /** A get whose steps nothing interrupts answers, keeps and dates exactly what the whole lookup does. */
  lemma GetUninterrupted(s: System, id: nat, i: nat, key: string, time: nat, metaAnswers: bool, config: Config)
    returns (steps: seq<Step>, before: System, last: Step, end: System)
    requires Enabled(s, BeginGet(id, i, key, time))
    ensures var (result, local) := Lookup(s.locals[i], s.remote, key, time, metaAnswers, config);
            Gives(s, steps, before, last, end, id, key, result, config) && OnlyLocal(s, end, i, local)
  {
    if key !in s.locals[i].data {
      steps, before, last, end := GetWithoutEntry(s, id, i, key, time, metaAnswers, config);
    } else if !FreshLocally(s.locals[i].data[key], time, config) {
      steps, before, last, end := GetWithOldEntry(s, id, i, key, time, metaAnswers, config);
    } else {
      GetWithYoungEntry(s, id, i, key, time, metaAnswers, config);
      steps, before, last := [], s, BeginGet(id, i, key, time);
      end := Apply(s, last, config);
    }
  }

  /** A set whose steps nothing interrupts does what the whole set does. */
  lemma SetUninterrupted(s: System, id: nat, i: nat, key: string, value: CachedFile, at: nat, reported: nat,
                         config: Config)
    returns (steps: seq<Step>, end: System)
    requires Enabled(s, BeginSet(id, i, key, value, at)) && reported <= at + 1
    ensures Run(s, steps, config) == Some(end) && end.pending == s.pending
    ensures |end.locals| == |s.locals| && forall k :: 0 <= k < |s.locals| && k != i ==> end.locals[k] == s.locals[k]
    ensures AfterSet(s.locals[i], s.remote, key, value, at, reported, config) == (end.locals[i], end.remote)
  {
    var s1 := Apply(s, BeginSet(id, i, key, value, at), config);
    var s2 := Apply(s1, Advance(id, at + 1, reported), config);
    var s3 := Apply(s2, Advance(id, at + 2, 0), config);
    end := Apply(s3, Advance(id, at + 3, 0), config);
    steps := [BeginSet(id, i, key, value, at)] + ([Advance(id, at + 1, reported)]
             + ([Advance(id, at + 2, 0)] + [Advance(id, at + 3, 0)]));
    RunOne(s3, Advance(id, at + 3, 0), config);
    OneMore(s2, Advance(id, at + 2, 0), [Advance(id, at + 3, 0)], end, config);
    OneMore(s1, Advance(id, at + 1, reported), [Advance(id, at + 2, 0)] + [Advance(id, at + 3, 0)], end, config);
    OneMore(s, BeginSet(id, i, key, value, at),
            [Advance(id, at + 1, reported)] + ([Advance(id, at + 2, 0)] + [Advance(id, at + 3, 0)]), end, config);
    assert s3.pending - {id} == s.pending;
  }

  lemma OneMore(s: System, step: Step, rest: seq<Step>, end: System, config: Config)
    requires Enabled(s, step) && Run(Apply(s, step, config), rest, config) == Some(end)
    ensures Run(s, [step] + rest, config) == Some(end)
  {
    assert ([step] + rest)[1..] == rest;
  }

  /** And a delete. */
  lemma DeleteUninterrupted(s: System, id: nat, i: nat, key: string, config: Config)
    returns (steps: seq<Step>, end: System)
    requires Enabled(s, BeginDelete(id, i, key))
    ensures Run(s, steps, config) == Some(end) && end.pending == s.pending
    ensures |end.locals| == |s.locals| && forall k :: 0 <= k < |s.locals| && k != i ==> end.locals[k] == s.locals[k]
    ensures AfterDelete(s.locals[i], s.remote, key) == (end.locals[i], end.remote)
  {
    var now := s.now;
    var s1 := Apply(s, BeginDelete(id, i, key), config);
    var s2 := Apply(s1, Advance(id, now + 1, 0), config);
    var s3 := Apply(s2, Advance(id, now + 2, 0), config);
    end := Apply(s3, Advance(id, now + 3, 0), config);
    steps := [BeginDelete(id, i, key)] + ([Advance(id, now + 1,
                                                   0)] + ([Advance(id, now + 2, 0)] + [Advance(id, now + 3, 0)]));
    RunOne(s3, Advance(id, now + 3, 0), config);
    OneMore(s2, Advance(id, now + 2, 0), [Advance(id, now + 3, 0)], end, config);
    OneMore(s1, Advance(id, now + 1, 0), [Advance(id, now + 2, 0)] + [Advance(id, now + 3, 0)], end, config);
    OneMore(s, BeginDelete(id, i, key),
            [Advance(id, now + 1, 0)] + ([Advance(id, now + 2, 0)] + [Advance(id, now + 3, 0)]), end, config);
    assert s3.pending - {id} == s.pending;
  }
}
