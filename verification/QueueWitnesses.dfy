/** Runs of the queue object that show what it does not promise. */
module QueueWitnesses {
  import opened Wrappers
  import opened Queue
  import opened QueueRuns
  import opened QueueFlight

  const SUCCESS := Response(200, true)
  const NOT_FOUND := Response(404, false)

  /** Reachable states of one run: `steps` leads from the empty queue to `end`. */
  ghost predicate Leads(systems: seq<System>, steps: seq<Step>, end: System, config: Config) {
    IsRun(systems, steps, config) && systems[|steps|] == end
  }

  lemma LeadsOn(systems: seq<System>, steps: seq<Step>, end: System, step: Step, next: System, config: Config)
    requires Leads(systems, steps, end, config) && Enabled(end, step)
    requires end.now <= next.now && next == Apply(end, step, next.now, config)
    ensures Leads(systems + [next], steps + [step], next, config)
  {
    forall k | 0 <= k < |steps| + 1 ensures StepAt(systems + [next], steps + [step], k, config) {
      if k < |steps| { assert StepAt(systems, steps, k, config); }
    }
  }

  ghost predicate Follows(s: System, step: Step, s': System, config: Config) {
    Enabled(s, step) && s.now <= s'.now && s' == Apply(s, step, s'.now, config)
  }

  lemma StepsMakeARun(systems: seq<System>, steps: seq<Step>, config: Config)
    requires ValidConfig(config) && |systems| == |steps| + 1
    requires systems[0] == Quiet({}, multiset{}, multiset{}, {})
    requires forall k :: 0 <= k < |steps| ==> Follows(systems[k], steps[k], systems[k + 1], config)
    ensures IsRun(systems, steps, config)
  {
    forall k | 0 <= k < |steps| ensures StepAt(systems, steps, k, config) {
      assert Follows(systems[k], steps[k], systems[k + 1], config);
    }
  }

  lemma FirstAlarm(id: string, entry: FailedState)
    ensures map[id := entry] != map[] && AlarmTimes(map[id := entry]) == {entry.nextAlarmMs}
    ensures Minimum({entry.nextAlarmMs}) == entry.nextAlarmMs
  {
    assert id in map[id := entry];
  }

  // ---- A blocked caller is admitted although its route has failed meanwhile, and the alarm retries the route

  function StaleState(n: nat, a: Message, b: Message): System
    requires n <= 8
  {
    var entry := FailedState(b, 1, FIRST_RETRY_MS);
    match n
    case 0 => Quiet({}, multiset{}, multiset{}, {})
    case 1 => Quiet({a.id}, multiset{}, multiset{a}, {})
    case 2 => Quiet({a.id}, multiset{b}, multiset{a}, {})
    case 3 => Quiet({a.id}, multiset{b, b}, multiset{a}, {})
    case 4 => Quiet({}, multiset{b, b}, multiset{}, {})
    case 5 => Quiet({b.id}, multiset{b}, multiset{b}, {})
    case 6 => Failing({}, map[b.id := entry], Some(FIRST_RETRY_MS), multiset{b}, multiset{}, [], {}, 0)
    case 7 => Failing({b.id}, map[b.id := entry], Some(FIRST_RETRY_MS), multiset{}, multiset{b}, [], {}, FIRST_RETRY_MS)
    case 8 => Failing({b.id}, map[b.id := entry], None, multiset{}, multiset{b}, [entry], {}, FIRST_RETRY_MS)
  }

  function Failing(ongoing: set<string>, failed: map<string, FailedState>, alarm: Option<int>,
                   waiting: multiset<Message>, running: multiset<Message>, retries: seq<FailedState>,
                   successes: set<Success>, now: int): System
  {
    System(State(ongoing, failed, map[], map[], alarm), waiting, running, retries, successes, now)
  }

  function StaleStep(n: nat, a: Message, b: Message): Step
    requires n < 8
  {
    match n
    case 0 => Arrive(a)
    case 1 => Arrive(b)
    case 2 => Arrive(b)
    case 3 => Finish(a, NOT_FOUND)
    case 4 => Wake(b)
    case 5 => Finish(b, NoResponse)
    case 6 => Wake(b)
    case 7 => AlarmFires([FailedState(b, 1, FIRST_RETRY_MS)])
  }

  predicate OneAtATime(config: Config) {
    ValidConfig(config) && config.maxRevalidations == 1 && config.disableSQLite
  }

  lemma StaleRunArrives(n: nat, a: Message, b: Message, config: Config)
    requires n < 3 && a.id != b.id && OneAtATime(config)
    ensures Follows(StaleState(n, a, b), StaleStep(n, a, b), StaleState(n + 1, a, b), config)
  {
    assert |{a.id}| == 1;
    if n == 0 {
      ArriveQuietly({}, multiset{}, multiset{}, {}, a, config);
    } else {
      ArriveQuietly({a.id}, if n == 1 then multiset{} else multiset{b}, multiset{a}, {}, b, config);
    }
  }

  lemma StaleRunMovesOn(n: nat, a: Message, b: Message, config: Config)
    requires 3 <= n < 5 && a.id != b.id && OneAtATime(config)
    ensures Follows(StaleState(n, a, b), StaleStep(n, a, b), StaleState(n + 1, a, b), config)
  {
    if n == 3 {
      assert multiset{a} - multiset{a} == multiset{} && {a.id} - {a.id} == {};
    } else {
      assert multiset{b, b} - multiset{b} == multiset{b} && {} + {b.id} == {b.id};
    }
  }

  lemma StaleRunFails(n: nat, a: Message, b: Message, config: Config)
    requires 5 <= n < 8 && a.id != b.id && OneAtATime(config)
    ensures Follows(StaleState(n, a, b), StaleStep(n, a, b), StaleState(n + 1, a, b), config)
  {
    FirstAlarm(b.id, FailedState(b, 1, FIRST_RETRY_MS));
  }

  /**
   Every woken caller finds its id not out when it is admitted, and still the id goes out twice: the caller's route
   had failed while it was blocked, and the alarm retries it beside the admitted request.
   */
  lemma WakesAloneDoNotDecide(a: Message, b: Message, config: Config) returns (systems: seq<System>, steps: seq<Step>)
    requires a.id != b.id && OneAtATime(config)
    ensures IsRun(systems, steps, config) && steps != []
    ensures forall k :: 0 <= k < |steps| && steps[k].Wake? ==>
              !RunningOut(systems[k], steps[k].msg.id) && !RetryOut(systems[k], steps[k].msg.id)
    ensures !SingleFlight(systems[|steps|])
  {
    systems := seq(9, n requires 0 <= n < 9 => StaleState(n, a, b));
    steps := seq(8, n requires 0 <= n < 8 => StaleStep(n, a, b));
    forall k | 0 <= k < |steps| ensures Follows(systems[k], steps[k], systems[k + 1], config) {
      if k < 3 {
        StaleRunArrives(k, a, b, config);
      } else if k < 5 {
        StaleRunMovesOn(k, a, b, config);
      } else {
        StaleRunFails(k, a, b, config);
      }
    }
    StepsMakeARun(systems, steps, config);
    assert b in systems[8].running && RetryOut(systems[8], b.id);
  }

  // ---- The cap counts ids, not requests

  /** The state with the given ids ongoing, callers blocked and requests out; nothing has failed. */
  function Quiet(ongoing: set<string>, waiting: multiset<Message>, running: multiset<Message>,
                 successes: set<Success>): System {
    System(State(ongoing, map[], map[], map[], None), waiting, running, [], successes, 0)
  }

  lemma ArriveQuietly(ongoing: set<string>, waiting: multiset<Message>, running: multiset<Message>,
                      successes: set<Success>, msg: Message, config: Config)
    requires config.disableSQLite && msg.id !in ongoing
    ensures Apply(Quiet(ongoing, waiting, running, successes), Arrive(msg), 0, config) ==
            if |ongoing| >= config.maxRevalidations then Quiet(ongoing, waiting + multiset{msg}, running, successes)
            else Quiet(ongoing + {msg.id}, waiting, running + multiset{msg}, successes)
  {
  }

  lemma SucceedQuietly(ongoing: set<string>, waiting: multiset<Message>, running: multiset<Message>,
                       successes: set<Success>, msg: Message, config: Config)
    requires config.disableSQLite && msg in running
    ensures Apply(Quiet(ongoing, waiting, running, successes), Finish(msg, SUCCESS), 0, config) ==
            Quiet(ongoing - {msg.id}, waiting, running - multiset{msg}, successes + {Success(msg.host, msg.url, 0)})
  {
  }

  lemma FillsAndBlocks(a: Message, b: Message, c: Message, config: Config)
      returns (systems: seq<System>, steps: seq<Step>)
    requires a.id != b.id && a.id != c.id && b.id != c.id
    requires ValidConfig(config) && config.maxRevalidations == 2 && config.disableSQLite
    ensures Leads(systems, steps, Quiet({a.id, c.id}, multiset{b, b}, multiset{a, c}, {}), config)
  {
    var s0, s1 := Quiet({}, multiset{}, multiset{}, {}), Quiet({a.id}, multiset{}, multiset{a}, {});
    var s2 := Quiet({a.id, c.id}, multiset{}, multiset{a, c}, {});
    ArriveQuietly({}, multiset{}, multiset{}, {}, a, config);
    LeadsOn([s0], [], s0, Arrive(a), s1, config);
    assert |{a.id}| == 1;
    ArriveQuietly({a.id}, multiset{}, multiset{a}, {}, c, config);
    LeadsOn([s0] + [s1], [] + [Arrive(a)], s1, Arrive(c), s2, config);
    systems, steps := BlocksTwice([s0] + [s1] + [s2], [] + [Arrive(a)] + [Arrive(c)], {a.id, c.id}, multiset{a, c}, b,
                                  config);
  }

  lemma BlocksTwice(systems: seq<System>, steps: seq<Step>, ongoing: set<string>, running: multiset<Message>,
                    b: Message, config: Config)
    returns (systems': seq<System>, steps': seq<Step>)
    requires Leads(systems, steps, Quiet(ongoing, multiset{}, running, {}), config)
    requires config.disableSQLite && |ongoing| >= config.maxRevalidations && b.id !in ongoing
    ensures Leads(systems', steps', Quiet(ongoing, multiset{b, b}, running, {}), config)
  {
    var one, two := Quiet(ongoing, multiset{b}, running, {}), Quiet(ongoing, multiset{b, b}, running, {});
    ArriveQuietly(ongoing, multiset{}, running, {}, b, config);
    LeadsOn(systems, steps, Quiet(ongoing, multiset{}, running, {}), Arrive(b), one, config);
    ArriveQuietly(ongoing, multiset{b}, running, {}, b, config);
    LeadsOn(systems + [one], steps + [Arrive(b)], one, Arrive(b), two, config);
    systems', steps' := systems + [one] + [two], steps + [Arrive(b)] + [Arrive(b)];
  }

  /** A request ends, and a caller blocked with `b` takes the free place. */
  lemma ReplaceBy(systems: seq<System>, steps: seq<Step>, ongoing: set<string>, waiting: multiset<Message>,
                  running: multiset<Message>, successes: set<Success>, a: Message, b: Message, config: Config)
    returns (systems': seq<System>, steps': seq<Step>)
    requires config.maxRevalidations == 2 && config.disableSQLite
    requires Leads(systems, steps, Quiet(ongoing, waiting, running, successes), config)
    requires a in running && b in waiting && |ongoing - {a.id}| < 2
    ensures Leads(systems', steps', Quiet(ongoing - {a.id} + {b.id}, waiting - multiset{b},
                                          running - multiset{a} + multiset{b},
                                          successes + {Success(a.host, a.url, 0)}), config)
  {
    var start := Quiet(ongoing, waiting, running, successes);
    var next := Apply(start, Finish(a, SUCCESS), 0, config);
    SucceedQuietly(ongoing, waiting, running, successes, a, config);
    LeadsOn(systems, steps, start, Finish(a, SUCCESS), next, config);
    systems', steps' := systems + [next], steps + [Finish(a, SUCCESS)];
    var end := Apply(next, Wake(b), 0, config);
    LeadsOn(systems', steps', next, Wake(b), end, config);
    systems', steps' := systems' + [end], steps' + [Wake(b)];
  }

  /**
   Two callers blocked with one id are both admitted and share one entry of the ongoing map: two requests, counted
   once.
   */
  lemma OneIdOutTwice(a: Message, b: Message, c: Message, config: Config)
    returns (systems: seq<System>, steps: seq<Step>)
    requires a.id != b.id && a.id != c.id && b.id != c.id
    requires ValidConfig(config) && config.maxRevalidations == 2 && config.disableSQLite
    ensures IsRun(systems, steps, config)
    ensures systems[|steps|].running == multiset{b, b} && systems[|steps|].q.ongoing == {b.id}
  {
    systems, steps := FillsAndBlocks(a, b, c, config);
    OneLeft(a.id, c.id);
    systems, steps := ReplaceBy(systems, steps, {a.id, c.id}, multiset{b, b}, multiset{a, c}, {}, a, b, config);
    var running := multiset{a, c} - multiset{a} + multiset{b};
    OneLeft(c.id, b.id);
    systems, steps := ReplaceBy(systems, steps, {a.id, c.id} - {a.id} + {b.id}, multiset{b, b} - multiset{b}, running,
                                {} + {Success(a.host, a.url, 0)}, c, b, config);
    assert running - multiset{c} + multiset{b} == multiset{b, b};
  }

  lemma OneLeft(x: string, y: string)
    requires x != y
    ensures {x, y} - {x} == {y} && |{y}| == 1
    ensures {x} + {y} == {x, y}
  {
  }

  // ---- A route that is done comes back with a restart

  function DoneState(n: nat, a: Message, config: Config): System
    requires n <= 5
  {
    var entry := FailedState(a, 1, FIRST_RETRY_MS);
    var rows, sync := map[a.id := FailedRow(entry, config.buildId)], map[SyncId(a) := SyncRow(2, config.buildId)];
    var done := {Success(a.host, a.url, FIRST_RETRY_MS)};
    match n
    case 0 => Quiet({}, multiset{}, multiset{}, {})
    case 1 => Quiet({a.id}, multiset{}, multiset{a}, {})
    case 2 => Kept(State({}, map[a.id := entry], rows, map[], Some(FIRST_RETRY_MS)), [], {})
    case 3 => Kept(State({}, map[a.id := entry], rows, map[], None), [entry], {})
    case 4 => Kept(State({}, map[], rows, sync, None), [], done)
    case 5 => Kept(State({}, map[a.id := entry], rows, sync, Some(FIRST_RETRY_MS)), [], done)
  }

  function Kept(q: State, retries: seq<FailedState>, successes: set<Success>): System {
    System(q, multiset{}, multiset{}, retries, successes, FIRST_RETRY_MS)
  }

  function DoneStep(n: nat, a: Message): Step
    requires n < 5
  {
    match n
    case 0 => Arrive(a)
    case 1 => Finish(a, NoResponse)
    case 2 => AlarmFires([FailedState(a, 1, FIRST_RETRY_MS)])
    case 3 => RetryFinishes(SUCCESS)
    case 4 => Restart
  }

  lemma DoneRunFails(n: nat, a: Message, config: Config)
    requires n < 3 && ValidConfig(config) && !config.disableSQLite
    ensures Follows(DoneState(n, a, config), DoneStep(n, a), DoneState(n + 1, a, config), config)
  {
    FirstAlarm(a.id, FailedState(a, 1, FIRST_RETRY_MS));
  }

  lemma DoneRunRestarts(n: nat, a: Message, config: Config)
    requires 3 <= n < 5 && ValidConfig(config) && !config.disableSQLite
    ensures Follows(DoneState(n, a, config), DoneStep(n, a), DoneState(n + 1, a, config), config)
  {
    var entry := FailedState(a, 1, FIRST_RETRY_MS);
    FirstAlarm(a.id, entry);
    if n == 4 {
      var q := DoneState(4, a, config).q;
      assert (map id | id in q.rows && q.rows[id].buildId == config.buildId :: q.rows[id]) == q.rows;
      assert (map id | id in q.sync && q.sync[id].buildId == config.buildId :: q.sync[id]) == q.sync;
      assert (map id | id in q.rows :: q.rows[id].state) == map[a.id := entry];
    }
  }

  /** A failure, a successful retry and a restart: the route is failed again, and will be retried. */
  lemma DoneRouteComesBack(a: Message, config: Config) returns (systems: seq<System>, steps: seq<Step>)
    requires ValidConfig(config) && !config.disableSQLite
    ensures IsRun(systems, steps, config) && |steps| == 5
    ensures steps[3] == RetryFinishes(SUCCESS) && systems[3].retries != [] && systems[3].retries[0].msg == a
    ensures systems[4].q.failed == map[] && steps[4].Restart?
    ensures a.id in systems[5].q.failed && systems[5].q.alarm.Some?
  {
    systems := seq(6, n requires 0 <= n < 6 => DoneState(n, a, config));
    steps := seq(5, n requires 0 <= n < 5 => DoneStep(n, a));
    forall k | 0 <= k < |steps| ensures Follows(systems[k], steps[k], systems[k + 1], config) {
      if k < 3 { DoneRunFails(k, a, config); } else { DoneRunRestarts(k, a, config); }
    }
    StepsMakeARun(systems, steps, config);
  }

  // ---- A failed route is left without an alarm

  const SECOND_RETRY_MS := 3_000
  const THIRD_RETRY_MS := 3_500

  function ForgottenState(n: nat, a: Message, b: Message, c: Message): System
    requires n <= 9
  {
    var first, second := FailedState(a, 1, FIRST_RETRY_MS), FailedState(b, 1, SECOND_RETRY_MS);
    var third, alarm := FailedState(c, 1, THIRD_RETRY_MS), Some(FIRST_RETRY_MS);
    var one, two := map[a.id := first], map[a.id := first, b.id := second];
    var all := map[a.id := first, b.id := second, c.id := third];
    var success := Success(b.host, b.url, FIRST_RETRY_MS);
    match n
    case 0 => Quiet({}, multiset{}, multiset{}, {})
    case 1 => Quiet({a.id}, multiset{}, multiset{a}, {})
    case 2 => Failing({}, one, alarm, multiset{}, multiset{}, [], {}, 1_000)
    case 3 => Failing({b.id}, one, alarm, multiset{}, multiset{b}, [], {}, 1_000)
    case 4 => Failing({}, two, alarm, multiset{}, multiset{}, [], {}, 1_500)
    case 5 => Failing({c.id}, two, alarm, multiset{}, multiset{c}, [], {}, 1_500)
    case 6 => Failing({}, all, alarm, multiset{}, multiset{}, [], {}, FIRST_RETRY_MS)
    case 7 => Failing({}, all, None, multiset{}, multiset{}, [second, first], {}, FIRST_RETRY_MS)
    case 8 => Failing({}, all - {b.id}, None, multiset{}, multiset{}, [first], {success}, FIRST_RETRY_MS)
    case 9 => Failing({}, map[c.id := third], None, multiset{}, multiset{}, [],
                      {success, Success(a.host, a.url, FIRST_RETRY_MS)}, FIRST_RETRY_MS)
  }

  function ForgottenStep(n: nat, a: Message, b: Message, c: Message): Step
    requires n < 9
  {
    match n
    case 0 => Arrive(a)
    case 1 => Finish(a, NoResponse)
    case 2 => Arrive(b)
    case 3 => Finish(b, NoResponse)
    case 4 => Arrive(c)
    case 5 => Finish(c, NoResponse)
    case 6 => AlarmFires([FailedState(b, 1, SECOND_RETRY_MS), FailedState(a, 1, FIRST_RETRY_MS)])
    case 7 => RetryFinishes(SUCCESS)
    case 8 => RetryFinishes(SUCCESS)
  }

  predicate Distinct(a: Message, b: Message, c: Message) {
    a.id != b.id && a.id != c.id && b.id != c.id
  }

  /** With an alarm set and an empty table a message arrives and fails. */
  lemma ArriveAndFail(s: System, msg: Message, now: int, config: Config)
    requires OneAtATime(config) && s.q.ongoing == {} && s.running == multiset{} && msg.id !in s.q.failed
        && s.q.alarm.Some?
    requires s.now <= now
    ensures var s1 := s.(q := s.q.(ongoing := {msg.id}), running := multiset{msg});
            && Follows(s, Arrive(msg), s1, config)
            && Follows(s1, Finish(msg, NoResponse),
                       s.(q := s.q.(failed := s.q.failed[msg.id := FailedState(msg, 1, s.now + FIRST_RETRY_MS)]),
                          now := now), config)
  {
    assert {} + {msg.id} == {msg.id} && {msg.id} - {msg.id} == {};
    assert multiset{} + multiset{msg} == multiset{msg} && multiset{msg} - multiset{msg} == multiset{};
  }

  lemma ForgottenRunBegins(n: nat, a: Message, b: Message, c: Message, config: Config)
    requires n < 2 && OneAtATime(config)
    ensures Follows(ForgottenState(n, a, b, c), ForgottenStep(n, a, b, c), ForgottenState(n + 1, a, b, c), config)
  {
    FirstAlarm(a.id, FailedState(a, 1, FIRST_RETRY_MS));
    ArriveQuietly({}, multiset{}, multiset{}, {}, a, config);
  }

  lemma ForgottenRunFails(n: nat, a: Message, b: Message, c: Message, config: Config)
    requires 2 <= n < 6 && Distinct(a, b, c) && OneAtATime(config)
    ensures Follows(ForgottenState(n, a, b, c), ForgottenStep(n, a, b, c), ForgottenState(n + 1, a, b, c), config)
  {
    if n < 4 {
      ArriveAndFail(ForgottenState(2, a, b, c), b, 1_500, config);
    } else {
      ArriveAndFail(ForgottenState(4, a, b, c), c, FIRST_RETRY_MS, config);
    }
  }

  lemma ForgottenRunFires(a: Message, b: Message, c: Message, config: Config)
    requires Distinct(a, b, c) && OneAtATime(config)
    ensures Follows(ForgottenState(6, a, b, c), ForgottenStep(6, a, b, c), ForgottenState(7, a, b, c), config)
  {
    var events := ForgottenStep(6, a, b, c).events;
    assert events[0].msg == b && events[1].msg == a;
  }

  lemma RetrySucceeds(s: System, config: Config)
    requires config.disableSQLite && s.retries != []
    ensures var msg := s.retries[0].msg;
            Follows(s, RetryFinishes(SUCCESS),
                    s.(q := s.q.(failed := s.q.failed - {msg.id}, ongoing := s.q.ongoing - {msg.id}),
                       retries := s.retries[1..],
                       successes := s.successes + {Success(msg.host, msg.url, s.now)}), config)
  {
  }

  lemma ForgottenRunRetries(n: nat, a: Message, b: Message, c: Message, config: Config)
    requires 7 <= n < 9 && Distinct(a, b, c) && OneAtATime(config)
    ensures Follows(ForgottenState(n, a, b, c), ForgottenStep(n, a, b, c), ForgottenState(n + 1, a, b, c), config)
  {
    var s := ForgottenState(n, a, b, c);
    RetrySucceeds(s, config);
    assert {} - {s.retries[0].msg.id} == {};
    if n == 8 {
      assert ForgottenState(9, a, b, c).q.failed == s.q.failed - {a.id};
    }
  }

  /**
   Three routes fail, the alarm fires at its time and picks the expired one and the next to come; both succeed. The
   third is left failed with no alarm set, no retry to do and no request out.
   */
  lemma FailedRouteIsForgotten(a: Message, b: Message, c: Message, config: Config)
    returns (systems: seq<System>, steps: seq<Step>)
    requires Distinct(a, b, c) && OneAtATime(config)
    ensures IsRun(systems, steps, config)
    ensures var end := systems[|steps|];
            && c.id in end.q.failed && end.q.alarm == None && end.retries == []
            && end.running == multiset{} && end.waiting == multiset{}
  {
    systems := seq(10, n requires 0 <= n < 10 => ForgottenState(n, a, b, c));
    steps := seq(9, n requires 0 <= n < 9 => ForgottenStep(n, a, b, c));
    forall k | 0 <= k < |steps| ensures Follows(systems[k], steps[k], systems[k + 1], config) {
      if k < 2 {
        ForgottenRunBegins(k, a, b, c, config);
      } else if k < 6 {
        ForgottenRunFails(k, a, b, c, config);
      } else if k == 6 {
        ForgottenRunFires(a, b, c, config);
      } else {
        ForgottenRunRetries(k, a, b, c, config);
      }
    }
    StepsMakeARun(systems, steps, config);
  }
}
