/**
 What the history of the queue object decides: what a restart brings back (pending retries, and routes that are done
 but still have a row), and whether an alarm is set.
 */
module QueueHistory {
  import opened Queue
  import opened QueueRuns
  import opened QueueRetries

  /** The step ends a request for `id` with a failure that is kept for another try. */
  ghost predicate Fails(s: System, step: Step, id: string, config: Config)
    requires Enabled(s, step)
  {
    && Executes(s, step, id)
    && NeedsRetry(step.outcome)
    && (id in s.q.failed ==> s.q.failed[id].retryCount < config.maxRetries)
  }

  /** The step ends a request for `id` for good: it succeeded, was given up or failed at the limit. */
  ghost predicate Settles(s: System, step: Step, id: string, config: Config)
    requires Enabled(s, step)
  {
    Executes(s, step, id) && !Fails(s, step, id, config)
  }

  ghost predicate FailsAt(systems: seq<System>, steps: seq<Step>, config: Config, k: int, id: string)
    requires 0 <= k < |steps| < |systems|
  {
    Enabled(systems[k], steps[k]) && Fails(systems[k], steps[k], id, config)
  }

  ghost predicate SettlesAt(systems: seq<System>, steps: seq<Step>, config: Config, k: int, id: string)
    requires 0 <= k < |steps| < |systems|
  {
    Enabled(systems[k], steps[k]) && Settles(systems[k], steps[k], id, config)
  }

  ghost predicate FailedBefore(systems: seq<System>, steps: seq<Step>, config: Config, k: int, id: string)
    requires 0 <= k <= |steps| < |systems|
  {
    exists p :: 0 <= p < k && FailsAt(systems, steps, config, p, id)
  }

  /** Step `m` puts `id` back into the failed state: it fails again, or a restart finds its row. */
  ghost predicate ReturnsAt(systems: seq<System>, steps: seq<Step>, config: Config, m: int, id: string)
    requires 0 <= m < |steps| < |systems|
  {
    FailsAt(systems, steps, config, m, id) || steps[m].Restart?
  }

  ghost predicate NotReturned(systems: seq<System>, steps: seq<Step>, config: Config, j: int, k: int, id: string)
    requires 0 <= j < k <= |steps| < |systems|
  {
    forall m :: j < m < k ==> !ReturnsAt(systems, steps, config, m, id)
  }

  /** `id` failed once and was settled at step `j`, and nothing has put it back since. */
  ghost predicate DoneAt(systems: seq<System>, steps: seq<Step>, config: Config, j: int, k: int, id: string)
    requires 0 <= j < k <= |steps| < |systems|
  {
    && FailedBefore(systems, steps, config, j, id)
    && SettlesAt(systems, steps, config, j, id)
    && NotReturned(systems, steps, config, j, k, id)
  }

  ghost predicate DoneBefore(systems: seq<System>, steps: seq<Step>, config: Config, k: int, id: string)
    requires 0 <= k <= |steps| < |systems|
  {
    exists j :: 0 <= j < k && DoneAt(systems, steps, config, j, k, id)
  }

  lemma FailureOnRow(q: State, msg: Message, outcome: Outcome, now: int, config: Config, id: string)
    requires !config.disableSQLite
    ensures var q' := Finished(q, msg, outcome, now, config);
            && (id != msg.id ==> (id in q'.failed <==> id in q.failed) && (id in q'.rows <==> id in q.rows))
            && (id == msg.id ==>
                if NeedsRetry(outcome) && (id in q.failed ==> q.failed[id].retryCount < config.maxRetries)
                then id in q'.failed && id in q'.rows
                else id !in q'.failed && (id in q'.rows <==> id in q.rows))
  {
  }

  /** What a step does to the entry and the row of `id`. */
  lemma StepOnRow(s: System, step: Step, now: int, config: Config, id: string)
    requires Enabled(s, step) && !config.disableSQLite && OfThisBuild(s.q, config)
    ensures var q, q' := s.q, Apply(s, step, now, config).q;
            if Fails(s, step, id, config) then id in q'.failed && id in q'.rows
            else if Settles(s, step, id, config) then id !in q'.failed && (id in q'.rows <==> id in q.rows)
            else if step.Restart? then (id in q'.failed <==> id in q.rows) && (id in q'.rows <==> id in q.rows)
            else (id in q'.failed <==> id in q.failed) && (id in q'.rows <==> id in q.rows)
  {
    match step
    case Finish(msg, outcome) => FailureOnRow(s.q, msg, outcome, s.now, config, id);
    case RetryFinishes(outcome) => FailureOnRow(s.q, s.retries[0].msg, outcome, s.now, config, id);
    case _ =>
  }

  lemma StepOfRun(systems: seq<System>, steps: seq<Step>, config: Config, k: int, id: string)
    requires IsRun(systems, steps, config) && 0 <= k < |steps| && !config.disableSQLite
    ensures var q, q' := systems[k].q, systems[k + 1].q;
            if FailsAt(systems, steps, config, k, id) then id in q'.failed && id in q'.rows
            else if SettlesAt(systems, steps, config, k, id) then id !in q'.failed && (id in q'.rows <==> id in q.rows)
            else if steps[k].Restart? then (id in q'.failed <==> id in q.rows) && (id in q'.rows <==> id in q.rows)
            else (id in q'.failed <==> id in q.failed) && (id in q'.rows <==> id in q.rows)
  {
    assert StepAt(systems, steps, k, config);
    RowsAreOfThisBuild(systems, steps, config, k);
    StepOnRow(systems[k], steps[k], systems[k + 1].now, config, id);
  }

  /** A route has a row exactly when it has failed at some time. */
  lemma {:induction false} RowsRememberFailures(systems: seq<System>, steps: seq<Step>, config: Config, k: int,
                                                id: string)
    requires IsRun(systems, steps, config) && 0 <= k < |systems| && !config.disableSQLite
    ensures id in systems[k].q.rows <==> FailedBefore(systems, steps, config, k, id)
  {
    if k > 0 {
      RowsRememberFailures(systems, steps, config, k - 1, id);
      StepOfRun(systems, steps, config, k - 1, id);
      assert FailedBefore(systems, steps, config, k, id) <==>
             FailedBefore(systems, steps, config, k - 1, id) || FailsAt(systems, steps, config, k - 1, id);
    }
  }

  /** How the history of `id` grows by one step. */
  lemma DoneSnoc(systems: seq<System>, steps: seq<Step>, config: Config, k: int, id: string)
    requires 0 < k <= |steps| < |systems|
    ensures DoneBefore(systems, steps, config, k, id) <==>
            || DoneAt(systems, steps, config, k - 1, k, id)
            || (DoneBefore(systems, steps, config, k - 1, id) && !ReturnsAt(systems, steps, config, k - 1, id))
  {
    forall j | 0 <= j < k - 1
      ensures DoneAt(systems, steps, config, j, k, id) <==>
              DoneAt(systems, steps, config, j, k - 1, id) && !ReturnsAt(systems, steps, config, k - 1, id)
    {
      NotReturnedSnoc(systems, steps, config, j, k, id);
    }
    if DoneBefore(systems, steps, config, k, id) {
      var j :| 0 <= j < k && DoneAt(systems, steps, config, j, k, id);
      assert j == k - 1 || DoneAt(systems, steps, config, j, k - 1, id);
    }
    if DoneBefore(systems, steps, config, k - 1, id) && !ReturnsAt(systems, steps, config, k - 1, id) {
      var j :| 0 <= j < k - 1 && DoneAt(systems, steps, config, j, k - 1, id);
      assert DoneAt(systems, steps, config, j, k, id);
    }
  }

  lemma NotReturnedSnoc(systems: seq<System>, steps: seq<Step>, config: Config, j: int, k: int, id: string)
    requires 0 <= j < k - 1 < |steps| < |systems|
    ensures NotReturned(systems, steps, config, j, k, id) <==>
            NotReturned(systems, steps, config, j, k - 1, id) && !ReturnsAt(systems, steps, config, k - 1, id)
  {
  }

  /** Over every run: a row without a pending retry belongs to a route that failed and was settled since. */
  lemma {:induction false} StaleRowsAreDone(systems: seq<System>, steps: seq<Step>, config: Config, k: int, id: string)
    requires IsRun(systems, steps, config) && 0 <= k < |systems| && !config.disableSQLite
    ensures id in systems[k].q.rows && id !in systems[k].q.failed <==> DoneBefore(systems, steps, config, k, id)
  {
    if k > 0 {
      StaleRowsAreDone(systems, steps, config, k - 1, id);
      RowsRememberFailures(systems, steps, config, k - 1, id);
      RunIsGood(systems, steps, config, k - 1);
      StepOfRun(systems, steps, config, k - 1, id);
      DoneSnoc(systems, steps, config, k, id);
      assert NotReturned(systems, steps, config, k - 1, k, id);
    }
  }

  /**
   What a restart brings back, exactly: besides the pending retries the routes that failed, have succeeded, been given
   up or reached the limit since, and have neither failed again nor been brought back before.
   */
  lemma RestartBringsBackExactly(systems: seq<System>, steps: seq<Step>, config: Config, k: int, now: int)
    requires IsRun(systems, steps, config) && 0 <= k < |systems| && !config.disableSQLite
    ensures var before, after := systems[k].q.failed, Restored(systems[k].q, now, config).failed;
            && (forall id :: id in after <==> id in before || DoneBefore(systems, steps, config, k, id))
            && (after == before <==> forall id :: !DoneBefore(systems, steps, config, k, id))
  {
    RestartRestoresRetries(systems, steps, config, k, now);
    RowsAreOfThisBuild(systems, steps, config, k);
    RunIsGood(systems, steps, config, k);
    var q := systems[k].q;
    var after := Restored(q, now, config).failed;
    assert after.Keys == q.rows.Keys;
    forall id
      ensures id in after <==> id in q.failed || DoneBefore(systems, steps, config, k, id)
      ensures id in q.failed ==> !DoneBefore(systems, steps, config, k, id)
    {
      StaleRowsAreDone(systems, steps, config, k, id);
    }
  }

  // ---- When an alarm is set

  /** Step `k` keeps a failure for another try, or restarts the object while some route has a row. */
  ghost predicate SetsAlarmAt(systems: seq<System>, steps: seq<Step>, config: Config, k: int)
    requires 0 <= k < |steps| < |systems|
  {
    || (exists id :: FailsAt(systems, steps, config, k, id))
    || (steps[k].Restart? && !config.disableSQLite && exists id :: FailedBefore(systems, steps, config, k, id))
  }

  ghost predicate NoAlarmFires(steps: seq<Step>, j: int, k: int)
    requires 0 <= j < k <= |steps|
  {
    forall m :: j < m < k ==> !steps[m].AlarmFires?
  }

  ghost predicate AlarmPending(systems: seq<System>, steps: seq<Step>, config: Config, k: int)
    requires 0 <= k <= |steps| < |systems|
  {
    exists j :: 0 <= j < k && SetsAlarmAt(systems, steps, config, j) && NoAlarmFires(steps, j, k)
  }

  lemma AlarmPendingSnoc(systems: seq<System>, steps: seq<Step>, config: Config, k: int)
    requires 0 < k <= |steps| < |systems|
    ensures AlarmPending(systems, steps, config, k) <==>
            || SetsAlarmAt(systems, steps, config, k - 1)
            || (AlarmPending(systems, steps, config, k - 1) && !steps[k - 1].AlarmFires?)
  {
    assert NoAlarmFires(steps, k - 1, k);
    if AlarmPending(systems, steps, config, k) {
      var j :| 0 <= j < k && SetsAlarmAt(systems, steps, config, j) && NoAlarmFires(steps, j, k);
      assert j == k - 1 || NoAlarmFires(steps, j, k - 1);
    }
    if AlarmPending(systems, steps, config, k - 1) && !steps[k - 1].AlarmFires? {
      var j :| 0 <= j < k - 1 && SetsAlarmAt(systems, steps, config, j) && NoAlarmFires(steps, j, k - 1);
      assert NoAlarmFires(steps, j, k);
    }
  }

  lemma FinishedAlarm(q: State, msg: Message, outcome: Outcome, now: int, config: Config)
    ensures Finished(q, msg, outcome, now, config).alarm.Some? <==>
            || q.alarm.Some?
            || (NeedsRetry(outcome) && (msg.id in q.failed ==> q.failed[msg.id].retryCount < config.maxRetries))
  {
    var updated := Rescheduled(q.failed, msg, now, config);
    assert msg.id in q.failed[msg.id := updated];
  }

  /** What a step does to the alarm. */
  lemma StepOnAlarm(s: System, step: Step, now: int, config: Config)
    requires Enabled(s, step) && OfThisBuild(s.q, config)
    ensures Apply(s, step, now, config).q.alarm.Some? <==>
            || (s.q.alarm.Some? && !step.AlarmFires?)
            || (exists id :: Fails(s, step, id, config))
            || (step.Restart? && !config.disableSQLite && s.q.rows != map[])
  {
    match step
    case Finish(msg, outcome) =>
      FinishedAlarm(s.q, msg, outcome, s.now, config);
      assert (exists id :: Fails(s, step, id, config)) <==> Fails(s, step, msg.id, config);
    case RetryFinishes(outcome) =>
      FinishedAlarm(s.q, s.retries[0].msg, outcome, s.now, config);
      assert (exists id :: Fails(s, step, id, config)) <==> Fails(s, step, s.retries[0].msg.id, config);
    case Restart => RestartOnAlarm(s.q, s.now, config);
    case _ =>
  }

  lemma RestartOnAlarm(q: State, now: int, config: Config)
    requires OfThisBuild(q, config)
    ensures Restored(q, now, config).alarm.Some? <==> q.alarm.Some? || (!config.disableSQLite && q.rows != map[])
  {
    if !config.disableSQLite && q.rows != map[] {
      var id :| id in q.rows;
      assert id in Restored(q, now, config).failed;
    } else if !config.disableSQLite {
      assert Restored(q, now, config).failed.Keys == {};
    }
  }

  /**
   Over every run: an alarm is set exactly when, since the alarm last fired, a failure was kept for another try or the
   object restarted with a row. Otherwise the failed routes wait, whatever their retry times.
   */
  lemma {:induction false} AlarmIsSetExactly(systems: seq<System>, steps: seq<Step>, config: Config, k: int)
    requires IsRun(systems, steps, config) && 0 <= k < |systems|
    ensures systems[k].q.alarm.Some? <==> AlarmPending(systems, steps, config, k)
  {
    if k > 0 {
      AlarmIsSetExactly(systems, steps, config, k - 1);
      assert StepAt(systems, steps, k - 1, config);
      RowsAreOfThisBuild(systems, steps, config, k - 1);
      StepOnAlarm(systems[k - 1], steps[k - 1], systems[k].now, config);
      AlarmPendingSnoc(systems, steps, config, k);
      SetsAlarmMeans(systems, steps, config, k - 1);
    }
  }

  lemma SetsAlarmMeans(systems: seq<System>, steps: seq<Step>, config: Config, k: int)
    requires IsRun(systems, steps, config) && 0 <= k < |steps| && Enabled(systems[k], steps[k])
    ensures SetsAlarmAt(systems, steps, config, k) <==>
            || (exists id :: Fails(systems[k], steps[k], id, config))
            || (steps[k].Restart? && !config.disableSQLite && systems[k].q.rows != map[])
  {
    if id :| FailsAt(systems, steps, config, k, id) {
      assert Fails(systems[k], steps[k], id, config);
    }
    if id :| Fails(systems[k], steps[k], id, config) {
      assert FailsAt(systems, steps, config, k, id);
    }
    if !config.disableSQLite {
      forall id
        ensures id in systems[k].q.rows <==> FailedBefore(systems, steps, config, k, id)
      {
        RowsRememberFailures(systems, steps, config, k, id);
      }
      if systems[k].q.rows != map[] {
        var id :| id in systems[k].q.rows;
        assert FailedBefore(systems, steps, config, k, id);
      }
    }
  }
}
