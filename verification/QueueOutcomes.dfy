/**
 What the queue does, said of statuses, times and messages only: how a request ends, when the alarm is due, and what
 becomes of an arriving message.
 */
module QueueOutcomes {
  import opened Wrappers
  import opened Queue
  import opened QueueRuns
  import opened QueueRetries

  // ---- The end of a request, by status

  /**
   A route that had not failed: it is failed afterwards exactly when there was no answer or a status other than 200 and
   404, and then for the first time, due in two seconds, with its row and an alarm.
   */
  lemma FinishOfNewRoute(q: State, msg: Message, outcome: Outcome, now: int, config: Config)
    requires msg.id !in q.failed
    ensures var q' := Finished(q, msg, outcome, now, config);
            && (msg.id in q'.failed <==> outcome.NoResponse? || (outcome.status != 200 && outcome.status != 404))
            && (msg.id in q'.failed ==>
                  && q'.failed == q.failed[msg.id := FailedState(msg, 1, now + 2_000)]
                  && q'.alarm.Some?
                  && q'.rows == if config.disableSQLite then q.rows
                                else q.rows[msg.id := FailedRow(FailedState(msg, 1, now + 2_000), config.buildId)])
            && q'.ongoing == q.ongoing - {msg.id}
  {
    var updated := FailedState(msg, 1, now + 2_000);
    assert msg.id in q.failed[msg.id := updated];
  }

  /** A route that had failed: one more try with twice the delay, or none after the last one. */
  lemma FinishOfFailedRoute(q: State, msg: Message, outcome: Outcome, now: int, config: Config)
    requires msg.id in q.failed && (outcome.NoResponse? || (outcome.status != 200 && outcome.status != 404))
    ensures var q', count := Finished(q, msg, outcome, now, config), q.failed[msg.id].retryCount;
            if count >= config.maxRetries then q' == q.(failed := q.failed - {msg.id}, ongoing := q.ongoing - {msg.id})
            else
              var entry := FailedState(q.failed[msg.id].msg, count + 1, now + Pow2(count + 1) * config.retryInterval);
              && q'.failed == q.failed[msg.id := entry]
              && q'.rows == (if config.disableSQLite then q.rows
                             else q.rows[msg.id := FailedRow(entry, config.buildId)])
              && q'.alarm.Some? && q'.ongoing == q.ongoing - {msg.id}
  {
    if q.failed[msg.id].retryCount < config.maxRetries {
      var entry := Rescheduled(q.failed, msg, now, config);
      assert msg.id in q.failed[msg.id := entry];
    }
  }

  lemma Doubles(n: nat)
    ensures Pow2(0) == 1 && Pow2(n + 1) == 2 * Pow2(n)
  {
  }

  /** On 404 and on 200 the entry is gone and nothing else is recorded, but for the success of a real revalidation. */
  lemma FinishWithoutRetry(q: State, msg: Message, outcome: Outcome, now: int, config: Config)
    requires outcome.Response? && (outcome.status == 200 || outcome.status == 404)
    ensures Finished(q, msg, outcome, now, config) ==
            q.(failed := q.failed - {msg.id}, ongoing := q.ongoing - {msg.id},
               sync := if outcome == Response(200, true) && !config.disableSQLite
                       then q.sync[msg.host + msg.url := SyncRow(now / 1000, config.buildId)] else q.sync)
  {
  }

  // ---- The alarm

  /** A new alarm is never in the past: it is the earliest retry, or one interval away when that has been missed. */
  lemma NewAlarmIsTimely(q: State, now: int, config: Config)
    requires q.alarm == None && q.failed != map[] && config.retryInterval >= 1
    ensures var alarm := WithAlarm(q, now, config).alarm;
            && alarm.Some? && alarm.value >= now
            && ((forall id :: id in q.failed ==> q.failed[id].nextAlarmMs >= now) ==>
                  (forall id :: id in q.failed ==> alarm.value <= q.failed[id].nextAlarmMs)
                  && exists id :: id in q.failed && q.failed[id].nextAlarmMs == alarm.value)
            && ((exists id :: id in q.failed && q.failed[id].nextAlarmMs < now) ==>
                alarm.value == now + config.retryInterval)
  {
    AlarmTimesNonEmpty(q.failed);
    var times := AlarmTimes(q.failed);
    var next := Minimum(times);
    assert forall id :: id in q.failed ==> q.failed[id].nextAlarmMs in times;
    assert exists id :: id in q.failed && q.failed[id].nextAlarmMs == next;
  }

  /** An alarm that is set stays, and without failed routes none is set. */
  lemma OldAlarmStays(q: State, now: int, config: Config)
    requires q.alarm.Some? || q.failed == map[]
    ensures WithAlarm(q, now, config) == q
  {
  }

  /** Every route whose time has come is tried in the next alarm run: it is gone, or has one more try behind it. */
  lemma ExpiredAreRetried(q: State, events: seq<FailedState>, replies: nat -> Reply, now: int, config: Config,
                          id: string)
    requires WithinLimit(q.failed, config.maxRetries) && SelectsEvents(q.failed, now, events)
    requires id in q.failed && q.failed[id].nextAlarmMs <= now
    ensures var after := AfterEvents(q, events, replies, |events|, config);
            id in after.failed ==> after.failed[id].retryCount > q.failed[id].retryCount
  {
    var after := AfterEvents(q, events, replies, |events|, config);
    EventsUseSlots(q, events, replies, |events|, now, config);
    var event := q.failed[id];
    assert event in events && event.msg.id == id;
    var i :| 0 <= i < |events| && events[i] == event;
    assert SlotOf(events[i]) !in Slots(after.failed, config.maxRetries);
    assert id in after.failed && after.failed[id].retryCount <= event.retryCount ==>
             SlotOf(event) in Slots(after.failed, config.maxRetries);
  }

  /** So is the one that is due next, when no other one is due as early. */
  lemma NextIsRetried(q: State, events: seq<FailedState>, replies: nat -> Reply, now: int, config: Config, id: string)
    requires WithinLimit(q.failed, config.maxRetries) && SelectsEvents(q.failed, now, events)
    requires id in q.failed && q.failed[id].nextAlarmMs > now
    requires forall other :: other in q.failed && other != id && q.failed[other].nextAlarmMs > now ==>
               q.failed[id].nextAlarmMs < q.failed[other].nextAlarmMs
    ensures var after := AfterEvents(q, events, replies, |events|, config);
            id in after.failed ==> after.failed[id].retryCount > q.failed[id].retryCount
  {
    var after, event := AfterEvents(q, events, replies, |events|, config), q.failed[id];
    EventsUseSlots(q, events, replies, |events|, now, config);
    assert events != [] && events[0].nextAlarmMs > now && events[0].msg.id in q.failed;
    assert events[0] == event;
    assert SlotOf(events[0]) !in Slots(after.failed, config.maxRetries);
    assert id in after.failed && after.failed[id].retryCount <= event.retryCount ==>
             SlotOf(event) in Slots(after.failed, config.maxRetries);
  }

  // ---- An arriving message

  /** The route of the message was revalidated more than half a second after what the message knows. */
  ghost predicate KnownBetter(successes: set<Success>, msg: Message) {
    exists success :: success in successes && success.host == msg.host && success.url == msg.url
                      && success.at > msg.lastModified + 500
  }

  /**
   No message is lost: it runs at once when there is room, waits when there is none, and is dropped only when its id is
   ongoing or failed, or its route is known to be newer.
   */
  lemma ArrivalIsNeverLost(systems: seq<System>, steps: seq<Step>, config: Config, k: int, msg: Message)
    requires IsRun(systems, steps, config) && WellFormedSteps(steps) && 0 <= k < |steps| && steps[k] == Arrive(msg)
    ensures var s, s' := systems[k], systems[k + 1];
            || msg.id in s.q.ongoing || msg.id in s.q.failed || KnownBetter(s.successes, msg)
            || (|s.q.ongoing| < config.maxRevalidations && s'.running == s.running + multiset{msg}
                && s'.q.ongoing == s.q.ongoing + {msg.id})
            || (|s.q.ongoing| >= config.maxRevalidations && s'.waiting == s.waiting + multiset{msg} && s'.q == s.q)
  {
    assert StepAt(systems, steps, k, config);
    assert WellFormed(msg.host, msg.url);
    if SyncedSince(systems[k].q, msg, config) {
      var success := SyncDropIsSound(systems, steps, config, k, msg);
      assert KnownBetter(systems[k].successes, msg);
    }
  }

  /** Every success has its row, which is as young as it. */
  ghost predicate SuccessesAreKept(s: System, config: Config) {
    forall success :: success in s.successes ==>
      && success.at <= s.now
      && (success.host + success.url) in s.q.sync
      && s.q.sync[success.host + success.url].buildId == config.buildId
      && s.q.sync[success.host + success.url].lastSuccess >= success.at / 1000
  }

  lemma FinishKeepsSuccesses(s: System, msg: Message, outcome: Outcome, now: int, config: Config)
    requires SuccessesAreKept(s, config) && !config.disableSQLite && s.now <= now
    ensures var s' := s.(q := Finished(s.q, msg, outcome, s.now, config), successes := Logged(s, msg, outcome),
                         now := now);
            SuccessesAreKept(s', config)
  {
    if NeedsRetry(outcome) {
      assert Finished(s.q, msg, outcome, s.now, config).sync == s.q.sync;
    } else {
      FinishWithoutRetry(s.q, msg, outcome, s.now, config);
    }
  }

  lemma StepKeepsSuccesses(s: System, step: Step, now: int, config: Config)
    requires SuccessesAreKept(s, config) && Enabled(s, step) && !config.disableSQLite && s.now <= now
    ensures SuccessesAreKept(Apply(s, step, now, config), config)
  {
    match step
    case Finish(msg, outcome) => FinishKeepsSuccesses(s, msg, outcome, now, config);
    case RetryFinishes(outcome) => FinishKeepsSuccesses(s, s.retries[0].msg, outcome, now, config);
    case _ =>
  }

  lemma {:induction false} RunKeepsSuccesses(systems: seq<System>, steps: seq<Step>, config: Config, k: int)
    requires IsRun(systems, steps, config) && 0 <= k < |systems| && !config.disableSQLite
    ensures SuccessesAreKept(systems[k], config)
  {
    if k > 0 {
      RunKeepsSuccesses(systems, steps, config, k - 1);
      assert StepAt(systems, steps, k - 1, config);
      StepKeepsSuccesses(systems[k - 1], steps[k - 1], systems[k].now, config);
    }
  }

  /** And a message is dropped when its route was revalidated a second and a half or more after what it knows. */
  lemma OutdatedMessageIsDropped(systems: seq<System>, steps: seq<Step>, config: Config, k: int, msg: Message,
                                 success: Success)
    requires IsRun(systems, steps, config) && 0 <= k < |steps| && steps[k] == Arrive(msg) && !config.disableSQLite
    requires success in systems[k].successes && success.host == msg.host && success.url == msg.url
    requires success.at >= msg.lastModified + 1500
    ensures systems[k + 1] == systems[k].(now := systems[k + 1].now)
  {
    assert StepAt(systems, steps, k, config);
    RunKeepsSuccesses(systems, steps, config, k);
    RoundedSeconds(msg.lastModified, success.at);
  }

  /** So is one whose id is ongoing or failed: the route is at work or will be tried again. */
  lemma RepeatedMessageIsDropped(systems: seq<System>, steps: seq<Step>, config: Config, k: int, msg: Message)
    requires IsRun(systems, steps, config) && 0 <= k < |steps| && steps[k] == Arrive(msg)
    requires msg.id in systems[k].q.ongoing || msg.id in systems[k].q.failed
    ensures systems[k + 1] == systems[k].(now := systems[k + 1].now)
  {
    assert StepAt(systems, steps, k, config);
  }

  // ---- A new object over old tables

  /**
   Rows of another build are dropped, those of this build are all kept, and each kept failure is to be tried again.
   */
  lemma OnlyThisBuildIsRestored(q: State, now: int, config: Config, id: string)
    requires !config.disableSQLite
    ensures var q' := Restored(q, now, config);
            && (id in q'.rows <==> id in q.rows && q.rows[id].buildId == config.buildId)
            && (id in q'.rows ==> q'.rows[id] == q.rows[id])
            && (id in q'.sync <==> id in q.sync && q.sync[id].buildId == config.buildId)
            && (id in q'.sync ==> q'.sync[id] == q.sync[id])
            && (id in q'.failed <==> id in q'.rows) && (id in q'.failed ==> q'.failed[id] == q'.rows[id].state)
            && q'.ongoing == {}
  {
  }

  /** Without tables a new object knows nothing. */
  lemma NothingIsRestored(q: State, now: int, config: Config)
    requires config.disableSQLite
    ensures Restored(q, now, config) == q.(ongoing := {}, failed := map[])
  {
  }
}
