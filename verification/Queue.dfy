/**
 packages/cloudflare/src/api/durable-objects/queue.ts: the revalidation queue of one durable object. The methods
 of the class are the stretches of code between two awaits; `QueueRuns` interleaves them.
 */
module Queue {
  import opened Wrappers

  datatype Message = Message(id: string, host: string, url: string, lastModified: int)

  datatype FailedState = FailedState(msg: Message, retryCount: nat, nextAlarmMs: int)

  datatype FailedRow = FailedRow(state: FailedState, buildId: string)

  datatype SyncRow = SyncRow(lastSuccess: int, buildId: string)

  datatype Config = Config(maxRevalidations: int, retryInterval: int, maxRetries: int, disableSQLite: bool,
                           buildId: string)

  predicate ValidConfig(config: Config) {
    config.maxRevalidations >= 1 && config.retryInterval >= 1 && config.maxRetries >= 1
  }

  datatype State = State(ongoing: set<string>, failed: map<string, FailedState>,
                         rows: map<string, FailedRow>, sync: map<string, SyncRow>, alarm: Option<int>)

  /** What the HEAD request came to: a status with or without `x-nextjs-cache: REVALIDATED`, or no response. */
  datatype Outcome = Response(status: int, revalidated: bool) | NoResponse

  datatype Verdict = Succeeded | GivenUp | Retry

  function VerdictOf(outcome: Outcome): Verdict {
    match outcome
    case NoResponse => Retry
    case Response(status, revalidated) =>
      if status == 200 && !revalidated then GivenUp
      else if status == 404 then GivenUp
      else if status == 500 then Retry
      else if status != 200 then Retry
      else Succeeded
  }

  /** Not answered, or with any status but 200 and 404: the request is tried again. */
  predicate NeedsRetry(outcome: Outcome) {
    outcome.NoResponse? || (outcome.status != 200 && outcome.status != 404)
  }

  function Pow2(n: nat): (p: nat)
    ensures p >= 1
  {
    if n == 0 then 1 else 2 * Pow2(n - 1)
  }

  const FIRST_RETRY_MS := 2_000

  /** The row key of the sync table. */
  function SyncId(msg: Message): string { msg.host + msg.url }

  /** SQLite's `unixepoch()`: whole seconds. */
  function UnixEpoch(now: int): int { now / 1000 }

  /** `Math.round(ms / 1000)`, halves up. */
  function RoundSeconds(ms: int): int { (ms + 500) / 1000 }

  predicate SyncedSince(q: State, msg: Message, config: Config) {
    && !config.disableSQLite
    && SyncId(msg) in q.sync
    && q.sync[SyncId(msg)].lastSuccess > RoundSeconds(msg.lastModified)
  }

  ghost function PickOne<T>(s: set<T>): (x: T)
    requires s != {}
    ensures x in s
  {
    var x :| x in s; x
  }

  ghost function Minimum(s: set<int>): (m: int)
    requires s != {}
    ensures m in s && forall x :: x in s ==> m <= x
  {
    var x := PickOne(s);
    if s == {x} then x
    else
      var rest := Minimum(s - {x});
      assert forall y :: y in s ==> y == x || y in s - {x};
      if x <= rest then x else rest
  }

  function AlarmTimes(failed: map<string, FailedState>): set<int> {
    set id | id in failed :: failed[id].nextAlarmMs
  }

  lemma AlarmTimesNonEmpty(failed: map<string, FailedState>)
    requires failed != map[]
    ensures AlarmTimes(failed) != {}
  {
    var id :| id in failed;
    assert failed[id].nextAlarmMs in AlarmTimes(failed);
  }

  ghost function WithAlarm(q: State, now: int, config: Config): State {
    if q.alarm.Some? || q.failed == map[] then q
    else
      AlarmTimesNonEmpty(q.failed);
      var next := Minimum(AlarmTimes(q.failed));
      q.(alarm := Some(if next < now then now + config.retryInterval else next))
  }

  function Rescheduled(failed: map<string, FailedState>, msg: Message, now: int, config: Config): FailedState {
    if msg.id in failed then
      var retries := failed[msg.id].retryCount;
      FailedState(failed[msg.id].msg, retries + 1, now + Pow2(retries + 1) * config.retryInterval)
    else FailedState(msg, 1, now + FIRST_RETRY_MS)
  }

  ghost function AfterFailure(q: State, msg: Message, now: int, config: Config): State {
    if msg.id in q.failed && q.failed[msg.id].retryCount >= config.maxRetries
    then q.(failed := q.failed - {msg.id})
    else
      var updated := Rescheduled(q.failed, msg, now, config);
      WithAlarm(q.(failed := q.failed[msg.id := updated],
                   rows := if config.disableSQLite then q.rows
                       else q.rows[msg.id := FailedRow(updated, config.buildId)]),
                now, config)
  }

  /** The end of `executeRevalidation`. */
  ghost function Finished(q: State, msg: Message, outcome: Outcome, now: int, config: Config): State {
    var settled :=
      match VerdictOf(outcome)
      case Retry => AfterFailure(q, msg, now, config)
      case GivenUp => q.(failed := q.failed - {msg.id})
      case Succeeded =>
        q.(failed := q.failed - {msg.id},
           sync := if config.disableSQLite then q.sync
               else q.sync[SyncId(msg) := SyncRow(UnixEpoch(now), config.buildId)]);
    settled.(ongoing := settled.ongoing - {msg.id})
  }

  datatype Admission = Dropped | Blocked | Started

  function AdmissionOf(q: State, msg: Message, config: Config): Admission {
    if msg.id in q.ongoing || msg.id in q.failed || SyncedSince(q, msg, config) then Dropped
    else if |q.ongoing| >= config.maxRevalidations then Blocked
    else Started
  }

  function Begun(q: State, msg: Message): State {
    q.(ongoing := q.ongoing + {msg.id})
  }

  /** `initState` on the persisted tables: rows of other builds are dropped, the rest become the failed states. */
  ghost function Restored(q: State, now: int, config: Config): State {
    var empty := q.(ongoing := {}, failed := map[]);
    if config.disableSQLite then empty
    else
      var rows := map id | id in q.rows && q.rows[id].buildId == config.buildId :: q.rows[id];
      var sync := map id | id in q.sync && q.sync[id].buildId == config.buildId :: q.sync[id];
      WithAlarm(empty.(rows := rows, sync := sync, failed := map id | id in rows :: rows[id].state), now, config)
  }

  /** The events an alarm retries: the next one to come, when there is one, and every expired one. */
  ghost predicate SelectsEvents(failed: map<string, FailedState>, now: int, events: seq<FailedState>) {
    && (forall i :: 0 <= i < |events| ==> events[i].msg.id in failed && failed[events[i].msg.id] == events[i])
    && (forall i, j :: 0 <= i < j < |events| ==> events[i].msg.id != events[j].msg.id)
    && (forall id :: id in failed && failed[id].nextAlarmMs <= now ==> failed[id] in events)
    && (forall i :: 0 <= i < |events| && events[i].nextAlarmMs > now ==>
          i == 0 && forall id :: id in failed && failed[id].nextAlarmMs > now ==>
              events[0].nextAlarmMs <= failed[id].nextAlarmMs)
    && ((exists id :: id in failed && failed[id].nextAlarmMs > now) ==> events != [] && events[0].nextAlarmMs > now)
  }

  /** Every failed state is filed under the id of its own message. */
  ghost predicate FiledById(failed: map<string, FailedState>) {
    forall id :: id in failed ==> failed[id].msg.id == id
  }

  /** Answers of the alarm's retries, in order, each with the time it arrives. */
  datatype Reply = Reply(outcome: Outcome, now: int)

  ghost function AfterEvents(q: State, events: seq<FailedState>, replies: nat -> Reply, n: nat, config: Config): State
    requires n <= |events|
  {
    if n == 0 then q
    else
      var reply := replies(n - 1);
      Finished(AfterEvents(q, events, replies, n - 1, config), events[n - 1].msg, reply.outcome, reply.now, config)
  }

  class DOQueueHandler {
    var ongoingRevalidations: set<string>
    var routeInFailedState: map<string, FailedState>
    var failedTable: map<string, FailedRow>
    var syncTable: map<string, SyncRow>
    var scheduledAlarm: Option<int>
    const config: Config

    function View(): State
      reads this
    {
      State(ongoingRevalidations, routeInFailedState, failedTable, syncTable, scheduledAlarm)
    }

    /** A new object over the tables and the alarm that the storage kept. */
    constructor (config: Config, rows: map<string, FailedRow>, sync: map<string, SyncRow>, alarm: Option<int>, now: int)
      ensures this.config == config
      ensures View() == Restored(State({}, map[], rows, sync, alarm), now, config)
    {
      ongoingRevalidations, routeInFailedState := {}, map[];
      failedTable, syncTable, scheduledAlarm := rows, sync, alarm;
      this.config := config;
      new;
      ghost var kept := View();
      assert kept == State({}, map[], rows, sync, alarm);
      InitState(now);
    }

    method InitState(now: int)
      requires ongoingRevalidations == {} && routeInFailedState == map[]
      modifies this
      ensures View() == Restored(old(View()), now, config)
    {
      if config.disableSQLite {
        assert View() == Restored(old(View()), now, config);
        return;
      }
      failedTable := map id | id in failedTable && failedTable[id].buildId == config.buildId :: failedTable[id];
      syncTable := map id | id in syncTable && syncTable[id].buildId == config.buildId :: syncTable[id];
      RestoreFailedStates();
      AddAlarm(now);
    }

    /** The loop over the rows of the failed-state table. */
    method RestoreFailedStates()
      requires routeInFailedState == map[]
      modifies this`routeInFailedState
      ensures routeInFailedState == map id | id in failedTable :: failedTable[id].state
    {
      var cursor := failedTable.Keys;
      while cursor != {}
        invariant cursor <= failedTable.Keys
        invariant routeInFailedState == map id | id in failedTable && id !in cursor :: failedTable[id].state
        decreases |cursor|
      {
        var id :| id in cursor;
        routeInFailedState := routeInFailedState[id := failedTable[id].state];
        cursor := cursor - {id};
      }
    }

    method CheckSyncTable(msg: Message) returns (synced: bool)
      ensures synced == SyncedSince(View(), msg, config)
    {
      if config.disableSQLite {
        return false;
      }
      var key := msg.host + msg.url;
      synced := key in syncTable && syncTable[key].lastSuccess > RoundSeconds(msg.lastModified);
    }

    /** `revalidate` up to its first wait. */
    method Revalidate(msg: Message) returns (admission: Admission)
      modifies this
      ensures admission == AdmissionOf(old(View()), msg, config)
      ensures View() == if admission.Started? then Begun(old(View()), msg) else old(View())
    {
      if msg.id in ongoingRevalidations {
        return Dropped;
      }
      if msg.id in routeInFailedState {
        return Dropped;
      }
      var synced := CheckSyncTable(msg);
      if synced {
        return Dropped;
      }
      if |ongoingRevalidations| >= config.maxRevalidations {
        return Blocked;
      }
      ongoingRevalidations := ongoingRevalidations + {msg.id};
      admission := Started;
    }

    /** One turn of the waiting loop: only the number of ongoing revalidations is looked at again. */
    method WakeUp(msg: Message) returns (started: bool)
      modifies this
      ensures started == (|old(ongoingRevalidations)| < config.maxRevalidations)
      ensures View() == if started then Begun(old(View()), msg) else old(View())
    {
      if |ongoingRevalidations| >= config.maxRevalidations {
        return false;
      }
      ongoingRevalidations := ongoingRevalidations + {msg.id};
      started := true;
    }

    method AddAlarm(now: int)
      modifies this`scheduledAlarm
      ensures View() == WithAlarm(old(View()), now, config)
    {
      if scheduledAlarm.Some? {
        return;
      }
      if routeInFailedState == map[] {
        return;
      }
      var ids := routeInFailedState.Keys;
      var first :| first in ids;
      var nextAlarmToSetup := routeInFailedState[first].nextAlarmMs;
      ids := ids - {first};
      ghost var times := AlarmTimes(routeInFailedState);
      assert nextAlarmToSetup in times;
      while ids != {}
        invariant ids <= routeInFailedState.Keys
        invariant nextAlarmToSetup in times
        invariant forall id :: id in routeInFailedState && id !in ids ==>
            nextAlarmToSetup <= routeInFailedState[id].nextAlarmMs
        decreases |ids|
      {
        var id :| id in ids;
        if routeInFailedState[id].nextAlarmMs < nextAlarmToSetup {
          nextAlarmToSetup := routeInFailedState[id].nextAlarmMs;
        }
        ids := ids - {id};
      }
      assert nextAlarmToSetup == Minimum(times);
      if nextAlarmToSetup < now {
        nextAlarmToSetup := now + config.retryInterval;
      }
      scheduledAlarm := Some(nextAlarmToSetup);
    }

    method AddToFailedState(msg: Message, now: int)
      modifies this
      ensures View() == AfterFailure(old(View()), msg, now, config)
    {
      var updatedFailedState;
      if msg.id in routeInFailedState {
        var existing := routeInFailedState[msg.id];
        if existing.retryCount >= config.maxRetries {
          routeInFailedState := routeInFailedState - {msg.id};
          return;
        }
        updatedFailedState := Rescheduled(routeInFailedState, msg, now, config);
      } else {
        updatedFailedState := FailedState(msg, 1, now + FIRST_RETRY_MS);
      }
      routeInFailedState := routeInFailedState[msg.id := updatedFailedState];
      if !config.disableSQLite {
        failedTable := failedTable[msg.id := FailedRow(updatedFailedState, config.buildId)];
      }
      AddAlarm(now);
    }

    /** `executeRevalidation` once the request has been answered. */
    method FinishRevalidation(msg: Message, outcome: Outcome, now: int)
      modifies this
      ensures View() == Finished(old(View()), msg, outcome, now, config)
      ensures outcome.NoResponse? || (outcome.status != 200 && outcome.status != 404) ==>
                (msg.id !in old(routeInFailedState) ==>
                   msg.id in routeInFailedState && routeInFailedState[msg.id] == FailedState(msg, 1, now + 2_000)
                   && scheduledAlarm.Some?)
      ensures outcome.Response? && (outcome.status == 200 || outcome.status == 404) ==>
                routeInFailedState == old(routeInFailedState) - {msg.id} && failedTable == old(failedTable)
                && scheduledAlarm == old(scheduledAlarm)
      ensures syncTable == if !config.disableSQLite && outcome == Response(200, true)
                           then old(syncTable)[msg.host + msg.url := SyncRow(now / 1000, config.buildId)]
                           else old(syncTable)
    {
      match VerdictOf(outcome) {
        case GivenUp =>
          routeInFailedState := routeInFailedState - {msg.id};
        case Retry =>
          AddToFailedState(msg, now);
        case Succeeded =>
          if !config.disableSQLite {
            syncTable := syncTable[msg.host + msg.url := SyncRow(UnixEpoch(now), config.buildId)];
          }
          routeInFailedState := routeInFailedState - {msg.id};
      }
      ongoingRevalidations := ongoingRevalidations - {msg.id};
    }

    /** The events that have expired, in some order. */
    method ExpiredEvents(now: int) returns (events: seq<FailedState>)
      requires FiledById(routeInFailedState)
      ensures forall i :: 0 <= i < |events| ==> (events[i].msg.id in routeInFailedState
                && routeInFailedState[events[i].msg.id] == events[i] && events[i].nextAlarmMs <= now)
      ensures forall i, j :: 0 <= i < j < |events| ==> events[i].msg.id != events[j].msg.id
      ensures forall id :: id in routeInFailedState && routeInFailedState[id].nextAlarmMs <= now ==>
          routeInFailedState[id] in events
    {
      events := [];
      var ids := routeInFailedState.Keys;
      while ids != {}
        invariant ids <= routeInFailedState.Keys
        invariant forall i :: 0 <= i < |events| ==> (events[i].msg.id in routeInFailedState.Keys - ids
                    && routeInFailedState[events[i].msg.id] == events[i] && events[i].nextAlarmMs <= now)
        invariant forall i, j :: 0 <= i < j < |events| ==> events[i].msg.id != events[j].msg.id
        invariant forall id :: id in routeInFailedState.Keys - ids && routeInFailedState[id].nextAlarmMs <= now ==>
                    routeInFailedState[id] in events
        decreases |ids|
      {
        var id :| id in ids;
        if routeInFailedState[id].nextAlarmMs <= now {
          events := events + [routeInFailedState[id]];
        }
        ids := ids - {id};
      }
    }

    /** `event` is in the future and no other one outside `unseen` comes before it. */
    ghost predicate IsEarliestFuture(event: FailedState, now: int, unseen: set<string>)
      reads this
    {
      && event.msg.id in routeInFailedState && routeInFailedState[event.msg.id] == event && event.nextAlarmMs > now
      && forall id :: id in routeInFailedState && id !in unseen && routeInFailedState[id].nextAlarmMs > now ==>
           event.nextAlarmMs <= routeInFailedState[id].nextAlarmMs
    }

    /** The first future event by alarm time, as a list of at most one. */
    method NextEvent(now: int) returns (next: seq<FailedState>)
      requires FiledById(routeInFailedState)
      ensures |next| <= 1
      ensures next == [] ==> forall id :: id in routeInFailedState ==> routeInFailedState[id].nextAlarmMs <= now
      ensures next != [] ==> IsEarliestFuture(next[0], now, {})
    {
      next := [];
      var ids := routeInFailedState.Keys;
      while ids != {}
        invariant ids <= routeInFailedState.Keys && |next| <= 1
        invariant next == [] ==> forall id :: id in routeInFailedState && id !in ids ==>
            routeInFailedState[id].nextAlarmMs <= now
        invariant next != [] ==> IsEarliestFuture(next[0], now, ids)
        decreases |ids|
      {
        var id :| id in ids;
        var state := routeInFailedState[id];
        if state.nextAlarmMs > now && (next == [] || state.nextAlarmMs < next[0].nextAlarmMs) {
          next := [state];
        }
        ids := ids - {id};
      }
    }

    lemma SelectionOf(next: seq<FailedState>, expired: seq<FailedState>, now: int)
      requires |next| <= 1
      requires next == [] ==> forall id :: id in routeInFailedState ==> routeInFailedState[id].nextAlarmMs <= now
      requires next != [] ==> IsEarliestFuture(next[0], now, {})
      requires forall i :: 0 <= i < |expired| ==> (expired[i].msg.id in routeInFailedState
                 && routeInFailedState[expired[i].msg.id] == expired[i] && expired[i].nextAlarmMs <= now)
      requires forall i, j :: 0 <= i < j < |expired| ==> expired[i].msg.id != expired[j].msg.id
      requires forall id :: id in routeInFailedState && routeInFailedState[id].nextAlarmMs <= now ==>
          routeInFailedState[id] in expired
      ensures SelectsEvents(routeInFailedState, now, next + expired)
    {
    }

    /** A whole alarm run that nothing interrupts; the runtime has taken the alarm that fired. */
    method Alarm(now: int, replies: nat -> Reply) returns (ghost events: seq<FailedState>)
      requires FiledById(routeInFailedState) && scheduledAlarm == None
      modifies this
      ensures SelectsEvents(old(routeInFailedState), now, events)
      ensures View() == AfterEvents(old(View()), events, replies, |events|, config)
    {
      var nextEventToRetry := NextEvent(now);
      var expiredEvents := ExpiredEvents(now);
      var allEventsToRetry := nextEventToRetry + expiredEvents;
      events := allEventsToRetry;
      ghost var start := View();
      SelectionOf(nextEventToRetry, expiredEvents, now);
      for i := 0 to |allEventsToRetry|
        invariant View() == AfterEvents(start, allEventsToRetry, replies, i, config)
      {
        FinishRevalidation(allEventsToRetry[i].msg, replies(i).outcome, replies(i).now);
      }
    }
  }
}
