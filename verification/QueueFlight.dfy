/** How often one deduplication id can be out at the same time, over queue and alarm. */
module QueueFlight {
  import opened Wrappers
  import opened Queue
  import opened QueueRuns

  ghost predicate RunningOut(s: System, id: string) {
    exists msg :: msg in s.running && msg.id == id
  }

  ghost predicate RetryOut(s: System, id: string) {
    s.retries != [] && s.retries[0].msg.id == id
  }

  /** No id has two requests out: not two admitted ones, and not one next to an alarm retry. */
  ghost predicate SingleFlight(s: System) {
    && (forall msg :: msg in s.running ==> s.running[msg] == 1)
    && (forall a, b :: a in s.running && b in s.running && a != b ==> a.id != b.id)
    && (forall msg :: msg in s.running ==> !RetryOut(s, msg.id))
  }

  ghost predicate DistinctIds(events: seq<FailedState>) {
    forall i, j :: 0 <= i < j < |events| ==> events[i].msg.id != events[j].msg.id
  }

  /** Why it stays so: requests out are ongoing and not failed, and the alarm's events are still failed. */
  ghost predicate Separate(s: System) {
    && SingleFlight(s)
    && (forall msg :: msg in s.running ==> msg.id in s.q.ongoing)
    && s.q.ongoing !! s.q.failed.Keys
    && (forall i :: 0 <= i < |s.retries| ==> s.retries[i].msg.id in s.q.failed)
    && DistinctIds(s.retries)
    && FiledById(s.q.failed)
    && (forall id :: id in s.q.rows ==> s.q.rows[id].state.msg.id == id)
  }

  /** A step that admits no blocked caller, or one whose id is neither out nor failed by then. */
  ghost predicate CleanStep(s: System, step: Step, config: Config) {
    step.Wake? && |s.q.ongoing| < config.maxRevalidations ==> step.msg.id !in s.q.ongoing && step.msg.id !in s.q.failed
  }

  ghost predicate OnlyTouches(q: State, q': State, id: string) {
    && q'.ongoing == q.ongoing - {id}
    && (forall k :: k != id ==> (k in q'.failed <==> k in q.failed))
    && (forall k :: k in q'.failed ==> q'.failed[k].msg.id == k)
    && (forall k :: k in q'.rows ==> q'.rows[k].state.msg.id == k)
  }

  lemma AlarmTouchesNothing(q: State, now: int, config: Config)
    ensures WithAlarm(q, now, config) == q.(alarm := WithAlarm(q, now, config).alarm)
  {
  }

  lemma EntryOnlyTouches(q: State, q': State, id: string, entry: FailedState, row: FailedRow)
    requires FiledById(q.failed) && (forall k :: k in q.rows ==> q.rows[k].state.msg.id == k)
    requires entry.msg.id == id && row.state.msg.id == id
    requires q'.failed == q.failed[id := entry] && (q'.rows == q.rows || q'.rows == q.rows[id := row])
    requires q'.ongoing == q.ongoing - {id}
    ensures OnlyTouches(q, q', id)
  {
  }

  lemma FailureOnlyTouches(q: State, msg: Message, now: int, config: Config)
    requires FiledById(q.failed) && forall id :: id in q.rows ==> q.rows[id].state.msg.id == id
    ensures var q' := AfterFailure(q, msg, now, config);
            OnlyTouches(q, q'.(ongoing := q'.ongoing - {msg.id}), msg.id)
  {
    if !(msg.id in q.failed && q.failed[msg.id].retryCount >= config.maxRetries) {
      var entry := Rescheduled(q.failed, msg, now, config);
      var row, q' := FailedRow(entry, config.buildId), AfterFailure(q, msg, now, config);
      AlarmTouchesNothing(q.(failed := q.failed[msg.id := entry],
                             rows := if config.disableSQLite then q.rows else q.rows[msg.id := row]), now, config);
      EntryOnlyTouches(q, q'.(ongoing := q'.ongoing - {msg.id}), msg.id, entry, row);
    }
  }

  lemma FinishOnlyTouches(q: State, msg: Message, outcome: Outcome, now: int, config: Config)
    requires FiledById(q.failed) && forall id :: id in q.rows ==> q.rows[id].state.msg.id == id
    ensures OnlyTouches(q, Finished(q, msg, outcome, now, config), msg.id)
  {
    if VerdictOf(outcome).Retry? {
      FailureOnlyTouches(q, msg, now, config);
    }
  }

  lemma OneMoreStaysSingle(s: System, msg: Message, s': System)
    requires Separate(s) && msg.id !in s.q.ongoing && msg.id !in s.q.failed
    requires s'.running == s.running + multiset{msg} && s'.retries == s.retries
    ensures SingleFlight(s') && forall other :: other in s'.running ==> other == msg || other in s.running
  {
    assert forall other :: other in s'.running ==> other == msg || other in s.running;
    assert msg !in s.running;
  }

  lemma BeginStaysSeparate(s: System, msg: Message, now: int, waiting: multiset<Message>)
    requires Separate(s) && msg.id !in s.q.ongoing && msg.id !in s.q.failed
    ensures Separate(s.(q := Begun(s.q, msg), running := s.running + multiset{msg}, waiting := waiting, now := now))
  {
    OneMoreStaysSingle(s, msg, s.(q := Begun(s.q, msg), running := s.running + multiset{msg}, waiting := waiting,
                                  now := now));
  }

  lemma OneLess(running: multiset<Message>, msg: Message)
    requires msg in running && forall m :: m in running ==> running[m] == 1
    ensures forall m :: m in running - multiset{msg} <==> m in running && m != msg
    ensures forall m :: m in running - multiset{msg} ==> (running - multiset{msg})[m] == 1
  {
  }

  /** Fewer requests out, each of them once, and the same retries. */
  lemma FewerStaySingle(s: System, s': System)
    requires SingleFlight(s) && s'.retries == s.retries
    requires forall m :: m in s'.running ==> m in s.running && s'.running[m] == 1
    ensures SingleFlight(s')
  {
  }

  lemma RetriesStayFailed(q: State, q': State, retries: seq<FailedState>, id: string)
    requires id !in q.failed && OnlyTouches(q, q', id)
    requires forall i :: 0 <= i < |retries| ==> retries[i].msg.id in q.failed
    ensures forall i :: 0 <= i < |retries| ==> retries[i].msg.id in q'.failed
  {
  }

  lemma FinishStaysSeparate(s: System, msg: Message, q': State, successes: set<Success>, now: int)
    requires Separate(s) && msg in s.running && OnlyTouches(s.q, q', msg.id)
    ensures Separate(System(q', s.waiting, s.running - multiset{msg}, s.retries, successes, now))
  {
    OneLess(s.running, msg);
    FewerStaySingle(s, System(q', s.waiting, s.running - multiset{msg}, s.retries, successes, now));
    RetriesStayFailed(s.q, q', s.retries, msg.id);
  }

  lemma RetryStaysSeparate(s: System, q': State, successes: set<Success>, now: int)
    requires Separate(s) && s.retries != [] && OnlyTouches(s.q, q', s.retries[0].msg.id)
    ensures Separate(System(q', s.waiting, s.running, s.retries[1..], successes, now))
  {
    TailStaysFailed(s.q, q', s.retries);
    NextRetryIsSingle(s, System(q', s.waiting, s.running, s.retries[1..], successes, now));
    assert s.q.ongoing - {s.retries[0].msg.id} == s.q.ongoing;
  }

  lemma NextRetryIsSingle(s: System, s': System)
    requires Separate(s) && s.retries != [] && s'.running == s.running && s'.retries == s.retries[1..]
    ensures SingleFlight(s')
  {
    if s'.retries != [] {
      assert s'.retries[0] == s.retries[1];
    }
  }

  lemma TailStaysFailed(q: State, q': State, retries: seq<FailedState>)
    requires retries != [] && DistinctIds(retries) && OnlyTouches(q, q', retries[0].msg.id)
    requires forall i :: 0 <= i < |retries| ==> retries[i].msg.id in q.failed
    ensures DistinctIds(retries[1..])
    ensures forall i :: 0 <= i < |retries[1..]| ==>
        retries[1..][i].msg.id in q.failed && retries[1..][i].msg.id in q'.failed
  {
  }

  lemma AlarmStaysSeparate(s: System, events: seq<FailedState>, now: int)
    requires Separate(s) && SelectsEvents(s.q.failed, s.now, events)
    ensures Separate(s.(q := s.q.(alarm := None), retries := events, now := now))
  {
  }

  lemma RestartStaysSeparate(s: System, now: int, config: Config)
    requires Separate(s)
    ensures Separate(System(Restored(s.q, s.now, config), multiset{}, multiset{}, [], s.successes, now))
  {
  }

  lemma ArriveStaysSeparate(s: System, msg: Message, now: int, config: Config)
    requires Separate(s)
    ensures Separate(Apply(s, Arrive(msg), now, config))
  {
    if AdmissionOf(s.q, msg, config).Started? {
      BeginStaysSeparate(s, msg, now, s.waiting);
    }
  }

  lemma WakeStaysSeparate(s: System, msg: Message, now: int, config: Config)
    requires Separate(s) && msg in s.waiting && CleanStep(s, Wake(msg), config)
    ensures Separate(Apply(s, Wake(msg), now, config))
  {
    if |s.q.ongoing| < config.maxRevalidations {
      BeginStaysSeparate(s, msg, now, s.waiting - multiset{msg});
    }
  }

  lemma FinishStepStaysSeparate(s: System, msg: Message, outcome: Outcome, now: int, config: Config)
    requires Separate(s) && msg in s.running
    ensures Separate(Apply(s, Finish(msg, outcome), now, config))
  {
    FinishOnlyTouches(s.q, msg, outcome, s.now, config);
    FinishStaysSeparate(s, msg, Finished(s.q, msg, outcome, s.now, config), Logged(s, msg, outcome), now);
  }

  lemma RetryStepStaysSeparate(s: System, outcome: Outcome, now: int, config: Config)
    requires Separate(s) && s.retries != []
    ensures Separate(Apply(s, RetryFinishes(outcome), now, config))
  {
    var msg := s.retries[0].msg;
    FinishOnlyTouches(s.q, msg, outcome, s.now, config);
    RetryStaysSeparate(s, Finished(s.q, msg, outcome, s.now, config), Logged(s, msg, outcome), now);
  }

  lemma StepStaysSeparate(s: System, step: Step, now: int, config: Config)
    requires Separate(s) && Enabled(s, step) && CleanStep(s, step, config)
    ensures Separate(Apply(s, step, now, config))
  {
    match step
    case Arrive(msg) => ArriveStaysSeparate(s, msg, now, config);
    case Wake(msg) => WakeStaysSeparate(s, msg, now, config);
    case Finish(msg, outcome) => FinishStepStaysSeparate(s, msg, outcome, now, config);
    case RetryFinishes(outcome) => RetryStepStaysSeparate(s, outcome, now, config);
    case AlarmFires(events) => AlarmStaysSeparate(s, events, now);
    case Restart => RestartStaysSeparate(s, now, config);
  }

  /** As long as every woken caller is still new when it is admitted, no id is ever out twice. */
  lemma {:induction false} AtMostOnceWithoutStaleWakes(systems: seq<System>, steps: seq<Step>, config: Config, k: int)
    requires IsRun(systems, steps, config) && 0 <= k < |systems|
    requires forall j :: 0 <= j < k ==> CleanStep(systems[j], steps[j], config)
    ensures Separate(systems[k])
  {
    if k > 0 {
      AtMostOnceWithoutStaleWakes(systems, steps, config, k - 1);
      assert StepAt(systems, steps, k - 1, config);
      StepStaysSeparate(systems[k - 1], steps[k - 1], systems[k].now, config);
    }
  }

  // ---- The exact condition over whole runs

  /**
   What each step must find: a woken caller that is admitted has no request out for its id; an arriving one that is
   admitted is not the alarm's current retry; and the event the alarm comes to has no admitted request out.
   */
  ghost predicate Guarded(s: System, step: Step, config: Config)
    requires Enabled(s, step)
  {
    match step
    case Arrive(msg) => AdmissionOf(s.q, msg, config).Started? ==> !RetryOut(s, msg.id)
    case Wake(msg) => |s.q.ongoing| < config.maxRevalidations ==> !RunningOut(s, msg.id) && !RetryOut(s, msg.id)
    case AlarmFires(events) => events != [] ==> !RunningOut(s, events[0].msg.id)
    case RetryFinishes(_) => |s.retries| > 1 ==> !RunningOut(s, s.retries[1].msg.id)
    case Finish(_, _) => true
    case Restart => true
  }

  /** While no id is out twice every id out for an admitted message is in the ongoing map. */
  ghost predicate Flying(s: System) {
    SingleFlight(s) && forall msg :: msg in s.running ==> msg.id in s.q.ongoing
  }

  lemma FinishedOngoing(q: State, msg: Message, outcome: Outcome, now: int, config: Config)
    ensures Finished(q, msg, outcome, now, config).ongoing == q.ongoing - {msg.id}
  {
  }

  /** One more request out. */
  lemma StartKeepsSingleExactly(s: System, s': System, msg: Message)
    requires SingleFlight(s) && s'.running == s.running + multiset{msg} && s'.retries == s.retries
    ensures SingleFlight(s') <==> !RunningOut(s, msg.id) && !RetryOut(s, msg.id)
  {
    assert msg in s'.running;
    if other :| other in s.running && other.id == msg.id {
      assert other in s'.running;
      if other == msg { assert s'.running[msg] == s.running[msg] + 1; }
    }
    if RetryOut(s, msg.id) { assert RetryOut(s', msg.id); }
    assert forall other :: other in s'.running ==> other == msg || other in s.running;
  }

  /** A woken caller is not checked again: admitting it sends an id out twice exactly when the id is out already. */
  lemma WakeDuplicatesExactly(s: System, msg: Message, now: int, config: Config)
    requires SingleFlight(s) && Enabled(s, Wake(msg)) && |s.q.ongoing| < config.maxRevalidations
    ensures SingleFlight(Apply(s, Wake(msg), now, config)) <==> !RunningOut(s, msg.id) && !RetryOut(s, msg.id)
  {
    StartKeepsSingleExactly(s, Apply(s, Wake(msg), now, config), msg);
  }

  /** The same requests out, and another retry. */
  lemma RetryKeepsSingleExactly(s: System, s': System)
    requires SingleFlight(s) && s'.running == s.running
    ensures SingleFlight(s') <==> (s'.retries == [] || !RunningOut(s, s'.retries[0].msg.id))
  {
    if s'.retries != [] && RunningOut(s, s'.retries[0].msg.id) {
      var msg :| msg in s.running && msg.id == s'.retries[0].msg.id;
      assert msg in s'.running && RetryOut(s', msg.id);
    }
  }

  lemma FinishKeepsFlying(s: System, msg: Message, outcome: Outcome, now: int, config: Config)
    requires Flying(s) && msg in s.running
    ensures Flying(Apply(s, Finish(msg, outcome), now, config))
  {
    OneLess(s.running, msg);
    FinishedOngoing(s.q, msg, outcome, s.now, config);
    FewerStaySingle(s, Apply(s, Finish(msg, outcome), now, config));
  }

  lemma RetryKeepsFlyingExactly(s: System, outcome: Outcome, now: int, config: Config)
    requires Flying(s) && s.retries != []
    ensures var s' := Apply(s, RetryFinishes(outcome), now, config);
            && (SingleFlight(s') <==> Guarded(s, RetryFinishes(outcome), config))
            && (SingleFlight(s') ==> Flying(s'))
  {
    var s' := Apply(s, RetryFinishes(outcome), now, config);
    FinishedOngoing(s.q, s.retries[0].msg, outcome, s.now, config);
    RetryKeepsSingleExactly(s, s');
    if |s.retries| > 1 { assert s'.retries[0] == s.retries[1]; }
    assert forall msg :: msg in s.running ==> !RetryOut(s, msg.id);
  }

  /** Each step keeps single flight exactly when it meets its guard. */
  lemma StepKeepsSingleExactly(s: System, step: Step, now: int, config: Config)
    requires Flying(s) && Enabled(s, step)
    ensures SingleFlight(Apply(s, step, now, config)) <==> Guarded(s, step, config)
    ensures SingleFlight(Apply(s, step, now, config)) ==> Flying(Apply(s, step, now, config))
  {
    var s' := Apply(s, step, now, config);
    match step
    case Arrive(msg) =>
      if AdmissionOf(s.q, msg, config).Started? {
        StartKeepsSingleExactly(s, s', msg);
        assert !RunningOut(s, msg.id);
      } else {
        RetryKeepsSingleExactly(s, s');
      }
    case Wake(msg) =>
      if |s.q.ongoing| < config.maxRevalidations {
        WakeDuplicatesExactly(s, msg, now, config);
      }
    case Finish(msg, outcome) => FinishKeepsFlying(s, msg, outcome, now, config);
    case RetryFinishes(outcome) => RetryKeepsFlyingExactly(s, outcome, now, config);
    case AlarmFires(events) => RetryKeepsSingleExactly(s, s');
    case Restart =>
  }

  ghost predicate GuardedAt(systems: seq<System>, steps: seq<Step>, config: Config, k: int)
    requires 0 <= k < |steps| < |systems|
  {
    Enabled(systems[k], steps[k]) && Guarded(systems[k], steps[k], config)
  }

  ghost predicate GuardedBefore(systems: seq<System>, steps: seq<Step>, config: Config, k: int)
    requires 0 <= k <= |steps| < |systems|
  {
    forall j :: 0 <= j < k ==> GuardedAt(systems, steps, config, j)
  }

  ghost predicate SingleUpTo(systems: seq<System>, k: int)
    requires 0 <= k < |systems|
  {
    forall j :: 0 <= j <= k ==> SingleFlight(systems[j])
  }

  lemma GuardedSnoc(systems: seq<System>, steps: seq<Step>, config: Config, k: int)
    requires 0 < k <= |steps| < |systems|
    ensures GuardedBefore(systems, steps, config, k) <==>
            GuardedBefore(systems, steps, config, k - 1) && GuardedAt(systems, steps, config, k - 1)
  {
  }

  lemma SingleSnoc(systems: seq<System>, k: int)
    requires 0 < k < |systems|
    ensures SingleUpTo(systems, k) <==> SingleUpTo(systems, k - 1) && SingleFlight(systems[k])
  {
  }

  /** Every step up to here met its guard, or one did not and an id was out twice. */
  lemma {:induction false} GuardsDecide(systems: seq<System>, steps: seq<Step>, config: Config, k: int)
    requires IsRun(systems, steps, config) && 0 <= k < |systems|
    ensures GuardedBefore(systems, steps, config, k) ==> Flying(systems[k])
    ensures SingleUpTo(systems, k) ==> GuardedBefore(systems, steps, config, k)
  {
    if k > 0 {
      GuardsDecide(systems, steps, config, k - 1);
      assert StepAt(systems, steps, k - 1, config);
      GuardedSnoc(systems, steps, config, k);
      SingleSnoc(systems, k);
      if GuardedBefore(systems, steps, config, k - 1) {
        StepKeepsSingleExactly(systems[k - 1], steps[k - 1], systems[k].now, config);
        assert GuardedAt(systems, steps, config, k - 1) <==> SingleFlight(systems[k]);
      }
    }
  }

  /** Over every run: no id has been out twice up to state `k` exactly when every step before it met its guard. */
  lemma SingleFlightExactly(systems: seq<System>, steps: seq<Step>, config: Config, k: int)
    requires IsRun(systems, steps, config) && 0 <= k < |systems|
    ensures SingleUpTo(systems, k) <==> GuardedBefore(systems, steps, config, k)
  {
    GuardsDecide(systems, steps, config, k);
    if GuardedBefore(systems, steps, config, k) {
      forall j | 0 <= j <= k ensures SingleFlight(systems[j]) {
        GuardsDecide(systems, steps, config, j);
      }
    }
  }
}
