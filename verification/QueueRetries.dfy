/** The retry budget of a route: how often it is tried, how long it is delayed, and that alarm runs use it up. */
module QueueRetries {
  import opened Wrappers
  import opened Queue
  import opened QueueRuns

  // ---- One route between its first failure and its removal, in any interleaving

  /** The step ends a request for `id`. */
  ghost predicate Executes(s: System, step: Step, id: string)
    requires Enabled(s, step)
  {
    match step
    case Finish(msg, _) => msg.id == id
    case RetryFinishes(_) => s.retries[0].msg.id == id
    case _ => false
  }

  /** `id` fails with step `start` and is still failed at state `until`; restarts in between bring it back. */
  ghost predicate FailedSince(systems: seq<System>, steps: seq<Step>, start: int, until: int, id: string) {
    && 0 <= start < until < |systems| == |steps| + 1
    && id !in systems[start].q.failed
    && (forall k :: start < k <= until ==> id in systems[k].q.failed)
    && !steps[start].Restart?
  }

  ghost function Executions(systems: seq<System>, steps: seq<Step>, start: int, until: int, id: string): nat
    requires 0 <= start <= until < |systems| == |steps| + 1
    requires forall k :: start <= k < until ==> Enabled(systems[k], steps[k])
    decreases until - start
  {
    if start == until then 0
    else
      Executions(systems, steps, start, until - 1, id)
      + if Executes(systems[until - 1], steps[until - 1], id) then 1 else 0
  }

  /** The delays scheduled by those executions: the next alarm time minus the time it was set. */
  ghost function TotalDelay(systems: seq<System>, steps: seq<Step>, start: int, until: int, id: string): int
    requires 0 <= start <= until < |systems| == |steps| + 1
    requires forall k :: start <= k < until ==> Enabled(systems[k], steps[k])
    requires forall k :: start < k <= until ==> id in systems[k].q.failed
    decreases until - start
  {
    if start == until then 0
    else
      var before := TotalDelay(systems, steps, start, until - 1, id);
      if Executes(systems[until - 1], steps[until - 1], id)
      then before + (systems[until].q.failed[id].nextAlarmMs - systems[until - 1].now) else before
  }

  /** The sum of the delays of `n` failures in a row. */
  function DelayOf(n: int, config: Config): int {
    if n < 1 then 0 else FIRST_RETRY_MS + (Pow2(n + 1) - 4) * config.retryInterval
  }

  lemma DelayGrows(n: nat, config: Config)
    requires n >= 1
    ensures DelayOf(n + 1, config) == DelayOf(n, config) + Pow2(n + 1) * config.retryInterval
  {
    assert Pow2(n + 2) == 2 * Pow2(n + 1);
    var p, r := Pow2(n + 1), config.retryInterval;
    assert (2 * p - 4) * r == (p - 4) * r + p * r;
  }

  lemma EntryAfterFailure(q: State, msg: Message, now: int, config: Config, id: string)
    ensures id != msg.id ==> (id in AfterFailure(q, msg, now, config).failed <==> id in q.failed)
    ensures id != msg.id && id in q.failed ==> AfterFailure(q, msg, now, config).failed[id] == q.failed[id]
    ensures id == msg.id && id in AfterFailure(q, msg, now, config).failed ==>
              AfterFailure(q, msg, now, config).failed[id] == Rescheduled(q.failed, msg, now, config)
  {
  }

  /**
   A step that leaves `id` failed either ends a request for it and reschedules it, or does not touch its entry, not
   even a restart.
   */
  lemma StepOnEntry(s: System, step: Step, now: int, config: Config, id: string)
    requires Enabled(s, step) && (step.Restart? ==> id in s.q.failed && Persisted(s.q, config))
    requires id in Apply(s, step, now, config).q.failed
    ensures var s' := Apply(s, step, now, config);
            if Executes(s, step, id) then
              && s'.q.failed[id].retryCount == (if id in s.q.failed then s.q.failed[id].retryCount + 1 else 1)
              && s'.q.failed[id].nextAlarmMs - s.now ==
                 (if id in s.q.failed then Pow2(s.q.failed[id].retryCount + 1) * config.retryInterval
                  else FIRST_RETRY_MS)
            else id in s.q.failed && s'.q.failed[id] == s.q.failed[id]
  {
    if step.Finish? {
      EntryAfterFailure(s.q, step.msg, s.now, config, id);
    } else if step.RetryFinishes? {
      EntryAfterFailure(s.q, s.retries[0].msg, s.now, config, id);
    }
  }

  lemma StepsAreEnabled(systems: seq<System>, steps: seq<Step>, config: Config, start: int, until: int)
    requires IsRun(systems, steps, config) && 0 <= start <= until < |systems|
    ensures forall k :: start <= k < until ==> Enabled(systems[k], steps[k])
  {
    forall k | start <= k < until ensures Enabled(systems[k], steps[k]) {
      assert StepAt(systems, steps, k, config);
    }
  }

  lemma LastStepOnEntry(systems: seq<System>, steps: seq<Step>, config: Config, until: int, id: string)
    requires IsRun(systems, steps, config) && 0 < until < |systems| && id in systems[until].q.failed
    requires steps[until - 1].Restart? ==> id in systems[until - 1].q.failed
    ensures Enabled(systems[until - 1], steps[until - 1])
    ensures var s, entry := systems[until - 1], systems[until].q.failed[id];
            if Executes(s, steps[until - 1], id) then
              && entry.retryCount == (if id in s.q.failed then s.q.failed[id].retryCount + 1 else 1)
              && entry.nextAlarmMs - s.now == (if id in s.q.failed
                                               then Pow2(s.q.failed[id].retryCount + 1) * config.retryInterval
                                               else FIRST_RETRY_MS)
            else id in s.q.failed && entry == s.q.failed[id]
    ensures id in systems[until - 1].q.failed ==> systems[until - 1].q.failed[id].retryCount >= 1
  {
    assert StepAt(systems, steps, until - 1, config);
    RunIsGood(systems, steps, config, until - 1);
    StepOnEntry(systems[until - 1], steps[until - 1], systems[until].now, config, id);
  }

  lemma {:induction false} EntryCountsExecutions(systems: seq<System>, steps: seq<Step>, config: Config,
                                                 start: int, until: int, id: string)
    requires IsRun(systems, steps, config) && FailedSince(systems, steps, start, until, id)
    ensures forall k :: start <= k < until ==> Enabled(systems[k], steps[k])
    ensures Executions(systems, steps, start, until, id) == systems[until].q.failed[id].retryCount
    ensures TotalDelay(systems, steps, start, until, id) == DelayOf(systems[until].q.failed[id].retryCount, config)
    decreases until - start
  {
    StepsAreEnabled(systems, steps, config, start, until);
    LastStepOnEntry(systems, steps, config, until, id);
    if until > start + 1 {
      EntryCountsExecutions(systems, steps, config, start, until - 1, id);
      DelayGrows(systems[until - 1].q.failed[id].retryCount, config);
    } else {
      assert Pow2(2) == 4;
    }
  }

  lemma {:induction false} DelayMonotone(n: nat, m: nat, config: Config)
    requires 1 <= n <= m && config.retryInterval >= 1
    ensures DelayOf(n, config) <= DelayOf(m, config)
    decreases m - n
  {
    if n < m {
      DelayMonotone(n, m - 1, config);
      DelayGrows(m - 1, config);
    }
  }

  /**
   From its first failure until its removal, across any restarts, a route is tried at most `maxRetries + 1` times,
   the removing one included, and its delays add up to at most 2000 + (2^(maxRetries + 1) - 4) * retryInterval ms.
   */
  lemma RetryBudget(systems: seq<System>, steps: seq<Step>, config: Config, start: int, until: int, id: string)
    requires IsRun(systems, steps, config) && FailedSince(systems, steps, start, until, id)
    ensures forall k :: start <= k < until ==> Enabled(systems[k], steps[k])
    ensures Executions(systems, steps, start, until, id) <= config.maxRetries
    ensures TotalDelay(systems, steps, start, until, id)
            <= 2_000 + (Pow2(config.maxRetries + 1) - 4) * config.retryInterval
    ensures until < |steps| ==> Enabled(systems[until], steps[until])
    ensures until < |steps| ==> Executions(systems, steps, start, until + 1, id) <= config.maxRetries + 1
  {
    EntryCountsExecutions(systems, steps, config, start, until, id);
    RunIsGood(systems, steps, config, until);
    DelayMonotone(systems[until].q.failed[id].retryCount, config.maxRetries, config);
    if until < |steps| {
      assert StepAt(systems, steps, until, config);
    }
  }

  // ---- Alarm runs that nothing interrupts

  /** The retries still open: one slot per entry and remaining count, up to and including `maxRetries`. */
  function Slots(failed: map<string, FailedState>, maxRetries: int): set<(string, int)> {
    set id, n | id in failed && failed[id].retryCount <= n <= maxRetries :: (id, n)
  }

  function SlotsFrom(id: string, low: int, high: int): set<(string, int)> {
    set n | low <= n <= high :: (id, n)
  }

  lemma {:induction false} SlotsFromCount(id: string, low: int, high: int)
    requires low <= high + 1
    ensures |SlotsFrom(id, low, high)| == high + 1 - low
    decreases high - low
  {
    if low <= high {
      SlotsFromCount(id, low, high - 1);
      assert SlotsFrom(id, low, high) == SlotsFrom(id, low, high - 1) + {(id, high)};
    } else {
      assert SlotsFrom(id, low, high) == {};
    }
  }

  /** The number of slots is the sum over all entries of `maxRetries + 1 - retryCount`. */
  lemma SlotsAddUp(failed: map<string, FailedState>, maxRetries: int, id: string)
    requires id in failed && failed[id].retryCount <= maxRetries + 1
    ensures |Slots(failed, maxRetries)| == |Slots(failed - {id}, maxRetries)| + (maxRetries + 1 - failed[id].retryCount)
  {
    var rest, own := Slots(failed - {id}, maxRetries), SlotsFrom(id, failed[id].retryCount, maxRetries);
    SlotsFromCount(id, failed[id].retryCount, maxRetries);
    assert Slots(failed, maxRetries) == rest + own;
    assert rest !! own;
  }

  ghost predicate WithinLimit(failed: map<string, FailedState>, maxRetries: int) {
    forall id :: id in failed ==> failed[id].msg.id == id && failed[id].retryCount <= maxRetries
  }

  /** A retry of a failed entry uses up one of its slots or all of them, and touches no other entry. */
  lemma RetryUsesASlot(q: State, msg: Message, outcome: Outcome, now: int, config: Config)
    requires WithinLimit(q.failed, config.maxRetries) && msg.id in q.failed && q.failed[msg.id].msg == msg
    ensures var failed := Finished(q, msg, outcome, now, config).failed;
            && WithinLimit(failed, config.maxRetries)
            && Slots(failed, config.maxRetries)
               <= Slots(q.failed, config.maxRetries) - {(msg.id, q.failed[msg.id].retryCount)}
            && (forall id :: id != msg.id ==>
                  (id in failed <==> id in q.failed) && (id in failed ==> failed[id] == q.failed[id]))
  {
    assert (msg.id, q.failed[msg.id].retryCount) in Slots(q.failed, config.maxRetries);
  }

  function SlotOf(event: FailedState): (string, int) {
    (event.msg.id, event.retryCount)
  }

  /** The slots of the first `n` events are gone. */
  ghost predicate SlotsUsed(events: seq<FailedState>, n: nat, before: set<(string, int)>, after: set<(string, int)>)
    requires n <= |events|
  {
    after <= before && forall i :: 0 <= i < n ==> SlotOf(events[i]) in before && SlotOf(events[i]) !in after
  }

  lemma SlotsUsedSnoc(events: seq<FailedState>, n: nat, before: set<(string, int)>, middle: set<(string, int)>,
                      after: set<(string, int)>)
    requires n < |events| && SlotsUsed(events, n, before, middle)
    requires SlotOf(events[n]) in before && after <= middle - {SlotOf(events[n])}
    ensures SlotsUsed(events, n + 1, before, after)
  {
  }

  /** The events that are left of a run keep their entries, and every finished event has used a slot. */
  lemma {:induction false} EventsUseSlots(q: State, events: seq<FailedState>, replies: nat -> Reply, n: nat, now: int,
                                          config: Config)
    requires WithinLimit(q.failed, config.maxRetries) && SelectsEvents(q.failed, now, events) && n <= |events|
    ensures var after := AfterEvents(q, events, replies, n, config);
            && WithinLimit(after.failed, config.maxRetries)
            && (forall i :: n <= i < |events| ==>
                  events[i].msg.id in after.failed && after.failed[events[i].msg.id] == events[i])
            && SlotsUsed(events, n, Slots(q.failed, config.maxRetries), Slots(after.failed, config.maxRetries))
  {
    if n > 0 {
      EventsUseSlots(q, events, replies, n - 1, now, config);
      var before, event := AfterEvents(q, events, replies, n - 1, config), events[n - 1];
      var after := AfterEvents(q, events, replies, n, config);
      RetryUsesASlot(before, event.msg, replies(n - 1).outcome, replies(n - 1).now, config);
      assert event.msg.id in q.failed && q.failed[event.msg.id] == event;
      assert SlotOf(event) in Slots(q.failed, config.maxRetries);
      SlotsUsedSnoc(events, n - 1, Slots(q.failed, config.maxRetries), Slots(before.failed, config.maxRetries),
                    Slots(after.failed, config.maxRetries));
    }
  }

  /** An alarm run on a non-empty map leaves strictly fewer slots, whatever the requests come to. */
  lemma AlarmRunMakesProgress(q: State, events: seq<FailedState>, replies: nat -> Reply, now: int, config: Config)
    requires WithinLimit(q.failed, config.maxRetries) && SelectsEvents(q.failed, now, events) && q.failed != map[]
    ensures var after := AfterEvents(q, events, replies, |events|, config);
            && WithinLimit(after.failed, config.maxRetries)
            && |Slots(after.failed, config.maxRetries)| < |Slots(q.failed, config.maxRetries)|
  {
    var id :| id in q.failed;
    assert events != [] by {
      if q.failed[id].nextAlarmMs <= now { assert q.failed[id] in events; }
    }
    EventsUseSlots(q, events, replies, |events|, now, config);
    var before := Slots(q.failed, config.maxRetries);
    var after := Slots(AfterEvents(q, events, replies, |events|, config).failed, config.maxRetries);
    var used := SlotOf(events[0]);
    SmallerSet(after, before - {used});
    assert |before - {used}| == |before| - 1;
  }

  /** One alarm run: when it starts, what it retries and what the retries come to. */
  datatype AlarmRun = AlarmRun(now: int, events: seq<FailedState>, replies: nat -> Reply)

  ghost predicate RunsInTurn(q: State, runs: seq<AlarmRun>, config: Config)
    decreases |runs|
  {
    runs == [] ||
    (&& SelectsEvents(q.failed, runs[0].now, runs[0].events)
     && RunsInTurn(AfterEvents(q, runs[0].events, runs[0].replies, |runs[0].events|, config).(alarm := None),
                   runs[1..], config))
  }

  ghost function AfterRuns(q: State, runs: seq<AlarmRun>, config: Config): State
    requires RunsInTurn(q, runs, config)
    decreases |runs|
  {
    if runs == [] then q
    else AfterRuns(AfterEvents(q, runs[0].events, runs[0].replies, |runs[0].events|, config).(alarm := None),
                   runs[1..], config)
  }

  lemma EntriesHaveSlots(failed: map<string, FailedState>, maxRetries: int)
    requires WithinLimit(failed, maxRetries) && failed != map[]
    ensures |Slots(failed, maxRetries)| > 0
  {
    var id :| id in failed;
    assert (id, failed[id].retryCount as int) in Slots(failed, maxRetries);
  }

  lemma EventsComeFromEntries(failed: map<string, FailedState>, now: int, events: seq<FailedState>)
    requires SelectsEvents(failed, now, events) && events != []
    ensures failed != map[]
  {
    assert events[0].msg.id in failed;
  }

  /** With no new messages, as many alarm runs as there are slots empty the failed map. */
  lemma {:induction false} AlarmRunsEmptyTheMap(q: State, runs: seq<AlarmRun>, config: Config)
    requires WithinLimit(q.failed, config.maxRetries) && RunsInTurn(q, runs, config)
    requires |runs| >= |Slots(q.failed, config.maxRetries)|
    ensures AfterRuns(q, runs, config).failed == map[]
    decreases |runs|
  {
    if runs == [] {
      if q.failed != map[] {
        EntriesHaveSlots(q.failed, config.maxRetries);
      }
    } else {
      var run := runs[0];
      var after := AfterEvents(q, run.events, run.replies, |run.events|, config);
      if q.failed != map[] {
        AlarmRunMakesProgress(q, run.events, run.replies, run.now, config);
      } else if run.events != [] {
        EventsComeFromEntries(q.failed, run.now, run.events);
      }
      AlarmRunsEmptyTheMap(after.(alarm := None), runs[1..], config);
    }
  }

  /** A retry that fails before the limit is the only thing that sets an alarm during an alarm run. */
  ghost predicate Reschedules(event: FailedState, reply: Reply, config: Config) {
    NeedsRetry(reply.outcome) && event.retryCount < config.maxRetries
  }

  /**
   After an alarm run an alarm is set exactly when one of its retries failed short of the limit. In particular a run
   whose retries all end leaves the entries it did not pick without an alarm.
   */
  lemma {:induction false} AlarmIsSetAgainExactly(q: State, events: seq<FailedState>, replies: nat -> Reply, n: nat,
                                                  now: int, config: Config)
    requires WithinLimit(q.failed, config.maxRetries) && SelectsEvents(q.failed, now, events) && n <= |events|
    requires q.alarm == None
    ensures AfterEvents(q, events, replies, n, config).alarm.Some? <==> SomeReschedules(events, replies, n, config)
  {
    if n > 0 {
      AlarmIsSetAgainExactly(q, events, replies, n - 1, now, config);
      EventsUseSlots(q, events, replies, n - 1, now, config);
      FinishSetsAlarmExactly(AfterEvents(q, events, replies, n - 1, config), events[n - 1], replies(n - 1), config);
      SomeReschedulesSnoc(events, replies, n, config);
    }
  }

  ghost predicate SomeReschedules(events: seq<FailedState>, replies: nat -> Reply, n: nat, config: Config)
    requires n <= |events|
  {
    exists i :: 0 <= i < n && Reschedules(events[i], replies(i), config)
  }

  lemma SomeReschedulesSnoc(events: seq<FailedState>, replies: nat -> Reply, n: nat, config: Config)
    requires 0 < n <= |events|
    ensures SomeReschedules(events, replies, n, config) <==>
            SomeReschedules(events, replies, n - 1, config) || Reschedules(events[n - 1], replies(n - 1), config)
  {
  }

  lemma FinishSetsAlarmExactly(q: State, event: FailedState, reply: Reply, config: Config)
    requires event.msg.id in q.failed && q.failed[event.msg.id] == event
    ensures AfterFailure(q, event.msg, reply.now, config).alarm.Some? <==>
        q.alarm.Some? || event.retryCount < config.maxRetries
    ensures Finished(q, event.msg, reply.outcome, reply.now, config).alarm.Some? <==>
            q.alarm.Some? || Reschedules(event, reply, config)
  {
    var updated := Rescheduled(q.failed, event.msg, reply.now, config);
    assert event.msg.id in q.failed[event.msg.id := updated];
  }
}
