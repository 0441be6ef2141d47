/**
 Interleavings of the queue object: arriving messages, blocked callers waking up, revalidations and alarm
 retries finishing, and restarts of the object, in any order.
 */
module QueueRuns {
  import opened Wrappers
  import opened Queue

  /** A successful revalidation, as it happened. */
  datatype Success = Success(host: string, url: string, at: int)

  /**
   `waiting` are the callers blocked on the cap, `running` the requests that are out for admitted messages, and
   `retries` what the alarm run still has to do, its first event being out.
   */
  datatype System = System(q: State, waiting: multiset<Message>, running: multiset<Message>, retries: seq<FailedState>,
                           successes: set<Success>, now: int)

  datatype Step =
    | Arrive(msg: Message)
    | Wake(msg: Message)
    | Finish(msg: Message, outcome: Outcome)
    | AlarmFires(events: seq<FailedState>)
    | RetryFinishes(outcome: Outcome)
    | Restart

  ghost predicate Enabled(s: System, step: Step) {
    match step
    case Arrive(_) => true
    case Wake(msg) => msg in s.waiting
    case Finish(msg, _) => msg in s.running
    case AlarmFires(events) => s.q.alarm.Some? && s.retries == [] && SelectsEvents(s.q.failed, s.now, events)
    case RetryFinishes(_) => s.retries != []
    case Restart => true
  }

  function Logged(s: System, msg: Message, outcome: Outcome): set<Success> {
    if outcome == Response(200, true) then s.successes + {Success(msg.host, msg.url, s.now)} else s.successes
  }

  /** The step at time `s.now`, after which the clock reads `now`. */
  ghost function Apply(s: System, step: Step, now: int, config: Config): System
    requires Enabled(s, step)
  {
    match step
    case Arrive(msg) =>
      (match AdmissionOf(s.q, msg, config)
       case Dropped => s.(now := now)
       case Blocked => s.(waiting := s.waiting + multiset{msg}, now := now)
       case Started => s.(q := Begun(s.q, msg), running := s.running + multiset{msg}, now := now))
    case Wake(msg) =>
      if |s.q.ongoing| >= config.maxRevalidations then s.(now := now)
      else s.(q := Begun(s.q, msg), waiting := s.waiting - multiset{msg}, running := s.running + multiset{msg},
              now := now)
    case Finish(msg, outcome) =>
      s.(q := Finished(s.q, msg, outcome, s.now, config), running := s.running - multiset{msg},
         successes := Logged(s, msg, outcome), now := now)
    case AlarmFires(events) => s.(q := s.q.(alarm := None), retries := events, now := now)
    case RetryFinishes(outcome) =>
      var msg := s.retries[0].msg;
      s.(q := Finished(s.q, msg, outcome, s.now, config), retries := s.retries[1..],
         successes := Logged(s, msg, outcome), now := now)
    case Restart =>
      System(Restored(s.q, s.now, config), multiset{}, multiset{}, [], s.successes, now)
  }

  ghost predicate IsRun(systems: seq<System>, steps: seq<Step>, config: Config) {
    && ValidConfig(config)
    && |systems| == |steps| + 1
    && systems[0] == System(State({}, map[], map[], map[], None), multiset{}, multiset{}, [], {}, systems[0].now)
    && forall k :: 0 <= k < |steps| ==> StepAt(systems, steps, k, config)
  }

  ghost predicate StepAt(systems: seq<System>, steps: seq<Step>, k: int, config: Config)
    requires 0 <= k < |steps| < |systems|
  {
    && Enabled(systems[k], steps[k])
    && systems[k].now <= systems[k + 1].now
    && systems[k + 1] == Apply(systems[k], steps[k], systems[k + 1].now, config)
  }

  // ---- The invariant

  ghost predicate GoodEntry(id: string, state: FailedState, config: Config) {
    state.msg.id == id && 1 <= state.retryCount <= config.maxRetries
  }

  /** Every failed state in memory is in the table, unchanged. */
  ghost predicate Persisted(q: State, config: Config) {
    !config.disableSQLite ==>
      forall id :: id in q.failed ==> id in q.rows && q.rows[id] == FailedRow(q.failed[id], config.buildId)
  }

  /** A success of the route behind `key` happened within the second `lastSuccess`. */
  ghost predicate Recorded(successes: set<Success>, key: string, lastSuccess: int) {
    exists success :: success in successes && success.host + success.url == key && lastSuccess == UnixEpoch(success.at)
  }

  ghost predicate Good(s: System, config: Config) {
    && |s.q.ongoing| <= config.maxRevalidations
    && (forall id :: id in s.q.failed ==> GoodEntry(id, s.q.failed[id], config))
    && (forall id :: id in s.q.rows ==> GoodEntry(id, s.q.rows[id].state, config))
    && Persisted(s.q, config)
    && (forall key :: key in s.q.sync ==> Recorded(s.successes, key, s.q.sync[key].lastSuccess))
    && (forall i :: 0 <= i < |s.retries| ==> GoodEntry(s.retries[i].msg.id, s.retries[i], config))
  }

  lemma SmallerSet<T>(a: set<T>, b: set<T>)
    requires a <= b
    ensures |a| <= |b|
  {
    assert b == a + (b - a);
  }

  lemma FailureKeepsGood(q: State, msg: Message, now: int, config: Config)
    requires ValidConfig(config) && Persisted(q, config)
    requires forall id :: id in q.failed ==> GoodEntry(id, q.failed[id], config)
    requires forall id :: id in q.rows ==> GoodEntry(id, q.rows[id].state, config)
    ensures var after := AfterFailure(q, msg, now, config);
            && Persisted(after, config)
            && (forall id :: id in after.failed ==> GoodEntry(id, after.failed[id], config))
            && (forall id :: id in after.rows ==> GoodEntry(id, after.rows[id].state, config))
            && after.ongoing == q.ongoing && after.sync == q.sync
  {
  }

  lemma FinishKeepsGood(s: System, msg: Message, outcome: Outcome, config: Config)
    requires ValidConfig(config) && Good(s, config)
    ensures Good(s.(q := Finished(s.q, msg, outcome, s.now, config), successes := Logged(s, msg, outcome)), config)
  {
    FailureKeepsGood(s.q, msg, s.now, config);
    SmallerSet(s.q.ongoing - {msg.id}, s.q.ongoing);
    FinishKeepsSyncRecorded(s, msg, outcome, config);
  }

  lemma FinishKeepsSyncRecorded(s: System, msg: Message, outcome: Outcome, config: Config)
    requires forall key :: key in s.q.sync ==> Recorded(s.successes, key, s.q.sync[key].lastSuccess)
    ensures var sync := Finished(s.q, msg, outcome, s.now, config).sync;
            forall key :: key in sync ==> Recorded(Logged(s, msg, outcome), key, sync[key].lastSuccess)
  {
    var sync := Finished(s.q, msg, outcome, s.now, config).sync;
    forall key | key in sync
      ensures Recorded(Logged(s, msg, outcome), key, sync[key].lastSuccess)
    {
      if key in s.q.sync && sync[key] == s.q.sync[key] {
        var success :| success in s.successes && success.host + success.url == key
                       && s.q.sync[key].lastSuccess == UnixEpoch(success.at);
        assert success in Logged(s, msg, outcome);
      } else {
        var success := Success(msg.host, msg.url, s.now);
        assert success in Logged(s, msg, outcome) && success.host + success.url == key;
      }
    }
  }

  lemma StepKeepsGood(s: System, step: Step, now: int, config: Config)
    requires ValidConfig(config) && Good(s, config) && Enabled(s, step)
    ensures Good(Apply(s, step, now, config), config)
  {
    match step
    case Finish(msg, outcome) => FinishKeepsGood(s, msg, outcome, config);
    case RetryFinishes(outcome) => FinishKeepsGood(s, s.retries[0].msg, outcome, config);
    case Arrive(msg) =>
    case Wake(msg) =>
    case AlarmFires(events) =>
    case Restart =>
  }

  lemma {:induction false} RunIsGood(systems: seq<System>, steps: seq<Step>, config: Config, k: int)
    requires IsRun(systems, steps, config) && 0 <= k < |systems|
    ensures Good(systems[k], config)
  {
    if k > 0 {
      RunIsGood(systems, steps, config, k - 1);
      assert StepAt(systems, steps, k - 1, config);
      StepKeepsGood(systems[k - 1], steps[k - 1], systems[k].now, config);
    }
  }

  /** In any interleaving the ongoing map stays within the cap, and every failed state within the retry limit. */
  lemma CapAndRetryLimit(systems: seq<System>, steps: seq<Step>, config: Config, k: int, id: string)
    requires IsRun(systems, steps, config) && 0 <= k < |systems|
    ensures |systems[k].q.ongoing| <= config.maxRevalidations
    ensures id in systems[k].q.failed ==> 1 <= systems[k].q.failed[id].retryCount <= config.maxRetries
  {
    RunIsGood(systems, steps, config, k);
  }

  // ---- Crash recovery

  /**
   A restart under the same build brings back every pending retry, count and time included, with an alarm set
   whenever something was brought back. What comes back is the whole table: nothing else exactly when every
   row still belongs to a pending retry.
   */
  lemma RestartRestoresRetries(systems: seq<System>, steps: seq<Step>, config: Config, k: int, now: int)
    requires IsRun(systems, steps, config) && 0 <= k < |systems| && !config.disableSQLite
    ensures var before, after := systems[k].q, Restored(systems[k].q, now, config);
            && (forall id :: id in before.failed ==> id in after.failed && after.failed[id] == before.failed[id])
            && (after.failed == before.failed <==> (forall id :: id in before.rows ==> id in before.failed))
            && (after.failed != map[] ==> after.alarm.Some?)
  {
    RunIsGood(systems, steps, config, k);
    var q := systems[k].q;
    RowsAreOfThisBuild(systems, steps, config, k);
    var after := Restored(q, now, config);
    assert after.failed.Keys == q.rows.Keys;
    if forall id :: id in q.rows ==> id in q.failed {
      assert after.failed == q.failed;
    }
    if after.failed == q.failed {
      forall id | id in q.rows ensures id in q.failed { assert id in after.failed; }
    }
  }

  lemma {:induction false} RowsAreOfThisBuild(systems: seq<System>, steps: seq<Step>, config: Config, k: int)
    requires IsRun(systems, steps, config) && 0 <= k < |systems|
    ensures OfThisBuild(systems[k].q, config)
  {
    if k > 0 {
      RowsAreOfThisBuild(systems, steps, config, k - 1);
      assert StepAt(systems, steps, k - 1, config);
      StepKeepsBuild(systems[k - 1], steps[k - 1], systems[k].now, config);
    }
  }

  ghost predicate OfThisBuild(q: State, config: Config) {
    forall id :: id in q.rows ==> q.rows[id].buildId == config.buildId
  }

  lemma FinishKeepsBuild(q: State, msg: Message, outcome: Outcome, now: int, config: Config)
    requires OfThisBuild(q, config)
    ensures OfThisBuild(Finished(q, msg, outcome, now, config), config)
  {
  }

  lemma StepKeepsBuild(s: System, step: Step, now: int, config: Config)
    requires Enabled(s, step) && OfThisBuild(s.q, config)
    ensures OfThisBuild(Apply(s, step, now, config).q, config)
  {
    match step
    case Finish(msg, outcome) => FinishKeepsBuild(s.q, msg, outcome, s.now, config);
    case RetryFinishes(outcome) => FinishKeepsBuild(s.q, s.retries[0].msg, outcome, s.now, config);
    case _ =>
  }

  // ---- The sync table

  lemma RoundedSeconds(lastModified: int, at: int)
    ensures UnixEpoch(at) > RoundSeconds(lastModified) ==> at > lastModified + 500
    ensures at >= lastModified + 1500 ==> UnixEpoch(at) > RoundSeconds(lastModified)
  {
  }

  predicate PlainHost(host: string) { '/' !in host }

  predicate AbsolutePath(url: string) { url != "" && url[0] == '/' }

  lemma FirstSlash(host: string, url: string)
    requires PlainHost(host) && AbsolutePath(url)
    ensures (host + url)[|host|] == '/' && forall i :: 0 <= i < |host| ==> (host + url)[i] != '/'
  {
  }

  /** The row key glues host and url together; a host without a slash and a url starting with one can be told apart. */
  lemma SyncIdTellsRoutesApart(host: string, url: string, host': string, url': string)
    requires PlainHost(host) && PlainHost(host') && AbsolutePath(url) && AbsolutePath(url')
    requires host + url == host' + url'
    ensures host == host' && url == url'
  {
    var id := host + url;
    FirstSlash(host, url);
    FirstSlash(host', url');
    assert |host| == |host'|;
    assert host == id[..|host|] && host' == id[..|host|] && url == id[|host|..] && url' == id[|host|..];
  }

  ghost predicate WellFormed(host: string, url: string) { PlainHost(host) && AbsolutePath(url) }

  ghost predicate WellFormedSteps(steps: seq<Step>) {
    forall k :: 0 <= k < |steps| && (steps[k].Arrive? || steps[k].Wake? || steps[k].Finish?) ==>
      WellFormed(steps[k].msg.host, steps[k].msg.url)
  }

  ghost predicate WellFormedSystem(s: System) {
    && (forall success :: success in s.successes ==> WellFormed(success.host, success.url))
    && (forall id :: id in s.q.failed ==> WellFormed(s.q.failed[id].msg.host, s.q.failed[id].msg.url))
    && (forall id :: id in s.q.rows ==> WellFormed(s.q.rows[id].state.msg.host, s.q.rows[id].state.msg.url))
    && (forall i :: 0 <= i < |s.retries| ==> WellFormed(s.retries[i].msg.host, s.retries[i].msg.url))
  }

  lemma {:induction false} RunIsWellFormed(systems: seq<System>, steps: seq<Step>, config: Config, k: int)
    requires IsRun(systems, steps, config) && WellFormedSteps(steps) && 0 <= k < |systems|
    ensures WellFormedSystem(systems[k])
  {
    if k > 0 {
      RunIsWellFormed(systems, steps, config, k - 1);
      assert StepAt(systems, steps, k - 1, config);
      StepIsWellFormed(systems[k - 1], steps[k - 1], systems[k].now, config);
    }
  }

  lemma FinishIsWellFormed(s: System, msg: Message, outcome: Outcome, config: Config)
    requires WellFormedSystem(s) && WellFormed(msg.host, msg.url)
    ensures WellFormedSystem(s.(q := Finished(s.q, msg, outcome, s.now, config), successes := Logged(s, msg, outcome)))
  {
  }

  lemma StepIsWellFormed(s: System, step: Step, now: int, config: Config)
    requires WellFormedSystem(s) && Enabled(s, step)
    requires step.Finish? ==> WellFormed(step.msg.host, step.msg.url)
    ensures WellFormedSystem(Apply(s, step, now, config))
  {
    match step
    case Finish(msg, outcome) => FinishIsWellFormed(s, msg, outcome, config);
    case RetryFinishes(outcome) => FinishIsWellFormed(s, s.retries[0].msg, outcome, config);
    case _ =>
  }

  /** A message dropped by the sync check had its own route revalidated more than 500 ms after its `lastModified`. */
  lemma SyncDropIsSound(systems: seq<System>, steps: seq<Step>, config: Config, k: int, msg: Message)
      returns (success: Success)
    requires IsRun(systems, steps, config) && WellFormedSteps(steps) && 0 <= k < |systems|
    requires WellFormed(msg.host, msg.url) && SyncedSince(systems[k].q, msg, config)
    ensures success in systems[k].successes && success.host == msg.host && success.url == msg.url
    ensures success.at > msg.lastModified + 500
  {
    RunIsGood(systems, steps, config, k);
    RunIsWellFormed(systems, steps, config, k);
    var s := systems[k];
    assert Recorded(s.successes, SyncId(msg), s.q.sync[SyncId(msg)].lastSuccess);
    success :| success in s.successes && success.host + success.url == SyncId(msg)
               && s.q.sync[SyncId(msg)].lastSuccess == UnixEpoch(success.at);
    SyncIdTellsRoutesApart(success.host, success.url, msg.host, msg.url);
    RoundedSeconds(msg.lastModified, success.at);
  }
}
