/**
 packages/cloudflare/src/api/durable-objects/bucket-cache-purge.ts: tags to purge are kept in a table and sent
 in batches by an alarm.
 */
module Purge {
  import opened Wrappers

  const MAX_NUMBER_OF_TAGS_PER_PURGE := 100

  /** The results of a purge call. */
  datatype PurgeResult = PurgeSuccess | PurgeFailed | MissingCredentials | RateLimitExceeded

  /** `SELECT * FROM cache_purge LIMIT 100`: as many rows as the limit allows, in no particular order. */
  ghost predicate IsBatch(batch: set<string>, table: set<string>) {
    && batch <= table
    && |batch| == if |table| <= MAX_NUMBER_OF_TAGS_PER_PURGE then |table| else MAX_NUMBER_OF_TAGS_PER_PURGE
  }

  lemma SubsetOfSameSize(a: set<string>, b: set<string>)
    requires a <= b && |a| == |b|
    ensures a == b
  {
    assert |b - a| == 0 by { assert b == a + (b - a); }
  }

  /** A batch below the limit is the whole table, and no batch of a non-empty table is empty. */
  lemma BatchCoversSmallTables(batch: set<string>, table: set<string>)
    requires IsBatch(batch, table)
    ensures |batch| <= MAX_NUMBER_OF_TAGS_PER_PURGE
    ensures |batch| < MAX_NUMBER_OF_TAGS_PER_PURGE ==> batch == table
    ensures batch == {} <==> table == {}
  {
    if |table| <= MAX_NUMBER_OF_TAGS_PER_PURGE {
      SubsetOfSameSize(batch, table);
    }
  }

  // ---- A whole alarm run that nothing interrupts

  /** One call of the purge API, with its result. */
  datatype Call = Call(tags: set<string>, result: PurgeResult)

  predicate IsFailure(result: PurgeResult) {
    result == PurgeFailed || result == MissingCredentials
  }

  /** The tags of the calls that succeeded. */
  function Purged(calls: seq<Call>): set<string> {
    if calls == [] then {}
    else
      var last := calls[|calls| - 1];
      Purged(calls[..|calls| - 1]) + if last.result == PurgeSuccess then last.tags else {}
  }

  /** The tags of the calls that failed for good: the source removes them as well, and goes on. */
  function Dropped(calls: seq<Call>): set<string> {
    if calls == [] then {}
    else
      var last := calls[|calls| - 1];
      Dropped(calls[..|calls| - 1]) + if IsFailure(last.result) then last.tags else {}
  }

  function Settled(calls: seq<Call>): set<string> {
    Purged(calls) + Dropped(calls)
  }

  ghost predicate DisjointCalls(calls: seq<Call>) {
    forall i, j :: 0 <= i < j < |calls| ==> calls[i].tags !! calls[j].tags
  }

  lemma SettledSnoc(calls: seq<Call>, call: Call)
    ensures Purged(calls + [call]) == Purged(calls) + if call.result == PurgeSuccess then call.tags else {}
    ensures Dropped(calls + [call]) == Dropped(calls) + if IsFailure(call.result) then call.tags else {}
  {
    assert (calls + [call])[..|calls|] == calls;
  }

  lemma {:induction false} CallIsSettled(calls: seq<Call>, i: int)
    requires NoneLimited(calls) && 0 <= i < |calls|
    ensures calls[i].tags <= Settled(calls)
  {
    if i < |calls| - 1 {
      CallIsSettled(calls[..|calls| - 1], i);
    }
  }

  /**
   Tags purged, tags dropped after a failed call and tags left are the tags there were, each in one place only;
   batches are small and disjoint.
   */
  ghost predicate SettledSoFar(start: set<string>, table: set<string>, calls: seq<Call>) {
    && table !! Settled(calls) && Purged(calls) !! Dropped(calls)
    && start == table + Settled(calls)
    && DisjointCalls(calls)
    && forall i :: 0 <= i < |calls| ==> SmallBatch(calls[i].tags, start)
  }

  predicate SmallBatch(batch: set<string>, start: set<string>) {
    1 <= |batch| <= MAX_NUMBER_OF_TAGS_PER_PURGE && batch <= start
  }

  ghost predicate NoneLimited(calls: seq<Call>) {
    forall i :: 0 <= i < |calls| ==> calls[i].result != RateLimitExceeded
  }

  lemma NewCallIsDisjoint(table: set<string>, calls: seq<Call>, call: Call)
    requires DisjointCalls(calls) && NoneLimited(calls) && table !! Settled(calls) && call.tags <= table
    ensures DisjointCalls(calls + [call])
  {
    forall i | 0 <= i < |calls|
      ensures calls[i].tags !! call.tags
    {
      CallIsSettled(calls, i);
    }
  }

  lemma CallKeepsSettled(start: set<string>, table: set<string>, calls: seq<Call>, call: Call)
    requires SettledSoFar(start, table, calls) && NoneLimited(calls)
    requires call.tags <= table && 1 <= |call.tags| <= MAX_NUMBER_OF_TAGS_PER_PURGE
    ensures SettledSoFar(start, if call.result == RateLimitExceeded then table else table - call.tags, calls + [call])
  {
    var left := if call.result == RateLimitExceeded then table else table - call.tags;
    CallIsConserved(start, table, calls, call);
    NewCallIsDisjoint(table, calls, call);
    assert SmallBatch(call.tags, start);
  }

  lemma CallIsConserved(start: set<string>, table: set<string>, calls: seq<Call>, call: Call)
    requires table !! Settled(calls) && Purged(calls) !! Dropped(calls) && start == table + Settled(calls)
    requires call.tags <= table
    ensures var left := if call.result == RateLimitExceeded then table else table - call.tags;
            && left !! Settled(calls + [call]) && Purged(calls + [call]) !! Dropped(calls + [call])
            && start == left + Settled(calls + [call])
  {
    SettledSnoc(calls, call);
    match call.result
    case RateLimitExceeded =>
    case PurgeSuccess =>
      assert Settled(calls + [call]) == Settled(calls) + call.tags;
    case PurgeFailed =>
      assert Settled(calls + [call]) == Settled(calls) + call.tags;
    case MissingCredentials =>
      assert Settled(calls + [call]) == Settled(calls) + call.tags;
  }

  /** Every batch but the last has exactly 100 tags. */
  ghost predicate FullButLast(calls: seq<Call>) {
    AllFull(if calls == [] then calls else calls[..|calls| - 1])
  }

  ghost predicate AllFull(calls: seq<Call>) {
    forall i :: 0 <= i < |calls| ==> |calls[i].tags| == 100
  }

  lemma FullSnoc(calls: seq<Call>, call: Call)
    requires AllFull(calls)
    ensures FullButLast(calls + [call]) && (|call.tags| == 100 ==> AllFull(calls + [call]))
  {
    assert (calls + [call])[..|calls|] == calls;
  }

  class BucketCachePurge {
    var table: set<string>
    var scheduledAlarm: Option<int>
    const bufferTimeInSeconds: int

    constructor (bufferTimeInSeconds: int)
      ensures table == {} && scheduledAlarm == None && this.bufferTimeInSeconds == bufferTimeInSeconds
    {
      table, scheduledAlarm := {}, None;
      this.bufferTimeInSeconds := bufferTimeInSeconds;
    }

    method PurgeCacheByTags(tags: seq<string>, now: int)
      modifies this
      ensures table == old(table) + set tag | tag in tags
      ensures scheduledAlarm ==
              if old(scheduledAlarm).Some? then old(scheduledAlarm) else Some(now + bufferTimeInSeconds * 1000)
    {
      for i := 0 to |tags|
        invariant table == old(table) + set tag | tag in tags[..i]
        invariant scheduledAlarm == old(scheduledAlarm)
      {
        assert tags[..i + 1] == tags[..i] + [tags[i]];
        table := table + {tags[i]};
      }
      assert tags[..|tags|] == tags;
      if scheduledAlarm.None? {
        scheduledAlarm := Some(now + bufferTimeInSeconds * 1000);
      }
    }

    method SelectBatch() returns (batch: set<string>)
      ensures IsBatch(batch, table)
    {
      batch := {};
      while |batch| < MAX_NUMBER_OF_TAGS_PER_PURGE && batch != table
        invariant batch <= table && |batch| <= MAX_NUMBER_OF_TAGS_PER_PURGE
        decreases |table - batch|
      {
        var tag :| tag in table - batch;
        batch := batch + {tag};
      }
      if batch != table {
        SmallerThanTable(batch, table);
      }
    }

    /** One answered call: unless it is rate limited its tags leave the table. */
    method Settle(tags: set<string>, result: PurgeResult, calls: seq<Call>, ghost start: set<string>)
      returns (calls': seq<Call>)
      requires SettledSoFar(start, table, calls) && NoneLimited(calls)
      requires tags <= table && 1 <= |tags| <= MAX_NUMBER_OF_TAGS_PER_PURGE
      modifies this`table
      ensures calls' == calls + [Call(tags, result)]
      ensures SettledSoFar(start, table, calls')
      ensures table == if result == RateLimitExceeded then old(table) else old(table) - tags
      ensures result != RateLimitExceeded ==> NoneLimited(calls') && |table| < |old(table)|
    {
      CallKeepsSettled(start, table, calls, Call(tags, result));
      RemovedShrinks(tags, table);
      calls' := calls + [Call(tags, result)];
      if result != RateLimitExceeded {
        table := table - tags;
      }
    }

    /** The next batch: none after a short one, which was the whole table. */
    method NextBatch(tags: set<string>) returns (next: set<string>)
      requires |tags| < MAX_NUMBER_OF_TAGS_PER_PURGE ==> table == {}
      ensures next <= table && |next| <= MAX_NUMBER_OF_TAGS_PER_PURGE && (next == {} <==> table == {})
      ensures |next| < MAX_NUMBER_OF_TAGS_PER_PURGE ==> next == table
      ensures next != {} ==> |tags| >= MAX_NUMBER_OF_TAGS_PER_PURGE
    {
      if |tags| < MAX_NUMBER_OF_TAGS_PER_PURGE {
        next := {};
      } else {
        next := SelectBatch();
        BatchCoversSmallTables(next, table);
      }
    }

    /**
     `alarm` with the answers the purge API will give; `threw` is the exception that makes the runtime try again.
     Whatever the answers, tags purged, dropped and left are the tags there were, each in one place only.
     */
    method Alarm(answers: nat -> PurgeResult) returns (threw: bool, calls: seq<Call>)
      modifies this`table
      ensures SettledSoFar(old(table), table, calls)
      ensures !threw ==> table == {} && NoneLimited(calls)
      ensures FullButLast(calls)
      ensures threw ==> calls != [] && NoneLimited(calls[..|calls| - 1])
      ensures threw ==> calls[|calls| - 1].result == RateLimitExceeded && calls[|calls| - 1].tags <= table
    {
      calls := [];
      threw := false;
      var tags := SelectBatch();
      BatchCoversSmallTables(tags, table);
      while true
        invariant SettledSoFar(old(table), table, calls) && NoneLimited(calls)
        invariant FullButLast(calls) && (tags != {} ==> AllFull(calls))
        invariant tags <= table && |tags| <= MAX_NUMBER_OF_TAGS_PER_PURGE && (tags == {} <==> table == {})
        invariant |tags| < MAX_NUMBER_OF_TAGS_PER_PURGE ==> tags == table
        decreases |table|
      {
        if |tags| == 0 {
          return;
        }
        ghost var before := calls;
        var result := answers(|calls|);
        calls := Settle(tags, result, calls, old(table));
        FullSnoc(before, Call(tags, result));
        if result == RateLimitExceeded {
          threw := true;
          assert calls[..|calls| - 1] == before;
          return;
        }
        tags := NextBatch(tags);
      }
    }
  }

  lemma SmallerThanTable(batch: set<string>, table: set<string>)
    requires batch <= table && batch != table
    ensures |batch| < |table|
  {
    assert table == batch + (table - batch);
    assert table - batch != {};
  }

  lemma RemovedShrinks(tags: set<string>, table: set<string>)
    requires tags <= table && tags != {}
    ensures |table - tags| < |table|
  {
    assert table == tags + (table - tags);
  }

  // ---- Interleavings: tags arrive while a purge call is out

  /** `calling` is the batch whose purge call is out; after an exception the runtime schedules the alarm again. */
  datatype State = State(table: set<string>, alarm: bool, calling: Option<set<string>>)

  /** `batch` is the selection made after the answer, when one is made; it is ignored otherwise. */
  datatype Step =
    | Request(tags: set<string>)
    | AlarmFires(batch: set<string>)
    | Answer(result: PurgeResult, batch: set<string>)

  /** `AlarmFires` and `Answer` select from the table as it is then. */
  ghost predicate Enabled(s: State, step: Step) {
    match step
    case Request(_) => true
    case AlarmFires(batch) => s.alarm && s.calling.None? && IsBatch(batch, s.table)
    case Answer(_, batch) => s.calling.Some? && IsBatch(batch, s.table - s.calling.value)
  }

  function Calling(batch: set<string>): Option<set<string>> {
    if batch == {} then None else Some(batch)
  }

  function Apply(s: State, step: Step): State
    requires step.Answer? ==> s.calling.Some?
  {
    match step
    case Request(tags) => s.(table := s.table + tags, alarm := true)
    case AlarmFires(batch) => s.(alarm := false, calling := Calling(batch))
    case Answer(result, batch) =>
      if result == RateLimitExceeded then s.(alarm := true, calling := None)
      else
        s.(table := s.table - s.calling.value,
           calling := if |s.calling.value| < MAX_NUMBER_OF_TAGS_PER_PURGE then None else Calling(batch))
  }

  ghost predicate IsRun(states: seq<State>, steps: seq<Step>) {
    && |states| == |steps| + 1
    && states[0] == State({}, false, None)
    && forall k :: 0 <= k < |steps| ==> StepAt(states, steps, k)
  }

  ghost predicate StepAt(states: seq<State>, steps: seq<Step>, k: int)
    requires 0 <= k < |steps| < |states|
  {
    Enabled(states[k], steps[k]) && states[k + 1] == Apply(states[k], steps[k])
  }

  /** Why no tag is forgotten: what a short batch does not hold has arrived since, and set the alarm. */
  ghost predicate Watched(s: State) {
    && (s.calling.Some? ==> s.calling.value <= s.table && 1 <= |s.calling.value| <= MAX_NUMBER_OF_TAGS_PER_PURGE)
    && (s.table != {} ==> s.alarm || s.calling.Some?)
    && (s.calling.Some? && |s.calling.value| < MAX_NUMBER_OF_TAGS_PER_PURGE && s.table != s.calling.value ==> s.alarm)
  }

  lemma StepKeepsWatched(s: State, step: Step)
    requires Watched(s) && Enabled(s, step)
    ensures Watched(Apply(s, step))
  {
    match step
    case Request(_) =>
    case AlarmFires(batch) => BatchCoversSmallTables(batch, s.table);
    case Answer(_, batch) => BatchCoversSmallTables(batch, s.table - s.calling.value);
  }

  /** At every step of every interleaving a non-empty table has an alarm scheduled or a run at work. */
  lemma {:induction false} NonEmptyTableIsWatched(states: seq<State>, steps: seq<Step>, k: int)
    requires IsRun(states, steps) && 0 <= k < |states|
    ensures Watched(states[k])
    ensures states[k].table != {} ==> states[k].alarm || states[k].calling.Some?
  {
    if k > 0 {
      NonEmptyTableIsWatched(states, steps, k - 1);
      assert StepAt(states, steps, k - 1);
      StepKeepsWatched(states[k - 1], steps[k - 1]);
    }
  }

  predicate IsOut(s: State, tag: string) {
    s.calling.Some? && tag in s.calling.value
  }

  /** A call that contains `tag` is answered at step `k`, and not rate limited. */
  ghost predicate AnsweredAt(states: seq<State>, steps: seq<Step>, k: int, tag: string)
    requires 0 <= k < |steps| < |states|
  {
    steps[k].Answer? && steps[k].result != RateLimitExceeded && IsOut(states[k], tag)
  }

  ghost predicate PurgedAt(states: seq<State>, steps: seq<Step>, k: int, tag: string)
    requires 0 <= k < |steps| < |states|
  {
    steps[k].Answer? && steps[k].result == PurgeSuccess && IsOut(states[k], tag)
  }

  ghost predicate DroppedAt(states: seq<State>, steps: seq<Step>, k: int, tag: string)
    requires 0 <= k < |steps| < |states|
  {
    steps[k].Answer? && IsFailure(steps[k].result) && IsOut(states[k], tag)
  }

  /**
   A tag leaves the table only with the answer to a call that contained it and was not rate limited: it was purged
   when that call succeeded, and dropped when it failed.
   */
  lemma TagsLeaveOnlyWhenAnswered(states: seq<State>, steps: seq<Step>, k: int, tag: string)
    requires IsRun(states, steps) && 0 <= k < |steps|
    requires tag in states[k].table && tag !in states[k + 1].table
    ensures AnsweredAt(states, steps, k, tag)
    ensures PurgedAt(states, steps, k, tag) <==> !DroppedAt(states, steps, k, tag)
    ensures PurgedAt(states, steps, k, tag) <==> steps[k].result == PurgeSuccess
  {
    assert StepAt(states, steps, k);
  }

  /** Over every run: a tag requested at some step is in the table later, or a call that contained it was answered. */
  lemma {:induction false} RequestedTagsAreKeptOrAnswered(states: seq<State>, steps: seq<Step>, i: int, k: int,
                                                          tag: string)
    requires IsRun(states, steps) && 0 <= i < k < |states| && steps[i].Request? && tag in steps[i].tags
    ensures tag in states[k].table || exists j :: i < j < k && AnsweredAt(states, steps, j, tag)
  {
    if k == i + 1 {
      assert StepAt(states, steps, i);
    } else {
      RequestedTagsAreKeptOrAnswered(states, steps, i, k - 1, tag);
      if tag in states[k - 1].table && tag !in states[k].table {
        TagsLeaveOnlyWhenAnswered(states, steps, k - 1, tag);
        assert AnsweredAt(states, steps, k - 1, tag);
      }
    }
  }

  /** Step `k` sends a purge call that contains `tag`. */
  ghost predicate LeavesAt(states: seq<State>, steps: seq<Step>, k: int, tag: string)
    requires 0 <= k < |steps| < |states|
  {
    (steps[k].AlarmFires? || steps[k].Answer?) && states[k + 1].calling.Some? && tag in states[k + 1].calling.value
  }

  /** A call containing `tag` left after step `i` and before state `k`. */
  ghost predicate LeftBetween(states: seq<State>, steps: seq<Step>, i: int, k: int, tag: string)
    requires 0 <= i < k <= |steps| < |states|
  {
    exists l :: i < l < k && LeavesAt(states, steps, l, tag)
  }

  /** A call containing `tag` left after step `i` and was answered, not rate limited, before state `k`. */
  ghost predicate AnsweredBetween(states: seq<State>, steps: seq<Step>, i: int, k: int, tag: string)
    requires 0 <= i < k <= |steps| < |states|
  {
    exists l, j :: i < l < j < k && LeavesAt(states, steps, l, tag) && AnsweredAt(states, steps, j, tag)
  }

  /** One such call succeeded. */
  ghost predicate PurgedBetween(states: seq<State>, steps: seq<Step>, i: int, k: int, tag: string)
    requires 0 <= i < k <= |steps| < |states|
  {
    exists l, j :: i < l < j < k && LeavesAt(states, steps, l, tag) && PurgedAt(states, steps, j, tag)
  }

  /** One such call failed. */
  ghost predicate DroppedBetween(states: seq<State>, steps: seq<Step>, i: int, k: int, tag: string)
    requires 0 <= i < k <= |steps| < |states|
  {
    exists l, j :: i < l < j < k && LeavesAt(states, steps, l, tag) && DroppedAt(states, steps, j, tag)
  }

  /** `tag` is in the table after step `i` and every call that contains it left later. */
  ghost predicate Tracked(states: seq<State>, steps: seq<Step>, i: int, k: int, tag: string)
    requires 0 <= i < k <= |steps| < |states|
  {
    && (tag in states[k].table || AnsweredBetween(states, steps, i, k, tag))
    && (IsOut(states[k], tag) ==> LeftBetween(states, steps, i, k, tag))
  }

  lemma TrackedStep(states: seq<State>, steps: seq<Step>, i: int, k: int, tag: string)
    requires IsRun(states, steps) && 0 <= i < k < |steps| && Tracked(states, steps, i, k, tag)
    ensures Tracked(states, steps, i, k + 1, tag)
  {
    assert StepAt(states, steps, k);
    if IsOut(states[k + 1], tag) && !IsOut(states[k], tag) {
      assert LeavesAt(states, steps, k, tag);
    }
    if tag in states[k].table && tag !in states[k + 1].table {
      TagsLeaveOnlyWhenAnswered(states, steps, k, tag);
      var l :| i < l < k && LeavesAt(states, steps, l, tag);
      assert AnsweredAt(states, steps, k, tag);
    }
  }

  /**
   Once a tag is in the table and no call containing it is out, it is not lost: at every later state it is still
   there, or a call containing it has left since and has been answered. So it is after a rate-limited answer.
   */
  lemma {:induction false} KeptOnceNotOut(states: seq<State>, steps: seq<Step>, i: int, k: int, tag: string)
    requires IsRun(states, steps) && 0 <= i < k < |states|
    requires tag in states[i + 1].table && !IsOut(states[i + 1], tag)
    ensures Tracked(states, steps, i, k, tag)
  {
    if k > i + 1 {
      KeptOnceNotOut(states, steps, i, k - 1, tag);
      TrackedStep(states, steps, i, k - 1, tag);
    }
  }

  /** In particular a tag requested while no call containing it is out. */
  lemma RequestWhileNotOutIsAnswered(states: seq<State>, steps: seq<Step>, i: int, k: int, tag: string)
    requires IsRun(states, steps) && 0 <= i < k < |states|
    requires steps[i].Request? && tag in steps[i].tags && !IsOut(states[i], tag)
    ensures tag in states[k].table || AnsweredBetween(states, steps, i, k, tag)
  {
    assert StepAt(states, steps, i);
    KeptOnceNotOut(states, steps, i, k, tag);
  }

  lemma AnswersPurgeOrDrop(states: seq<State>, steps: seq<Step>, i: int, k: int, tag: string)
    requires 0 <= i < k <= |steps| < |states|
    ensures AnsweredBetween(states, steps, i, k, tag) <==>
            PurgedBetween(states, steps, i, k, tag) || DroppedBetween(states, steps, i, k, tag)
  {
    if l, j :| i < l < j < k && LeavesAt(states, steps, l, tag) && AnsweredAt(states, steps, j, tag) {
      assert PurgedAt(states, steps, j, tag) || DroppedAt(states, steps, j, tag);
    }
    if l, j :| i < l < j < k && LeavesAt(states, steps, l, tag) && PurgedAt(states, steps, j, tag) {
      assert AnsweredAt(states, steps, j, tag);
    }
    if l, j :| i < l < j < k && LeavesAt(states, steps, l, tag) && DroppedAt(states, steps, j, tag) {
      assert AnsweredAt(states, steps, j, tag);
    }
  }

  ghost predicate NotRequested(steps: seq<Step>, i: int, k: int, tag: string)
    requires 0 <= i < k <= |steps|
  {
    forall m :: i < m < k && steps[m].Request? ==> tag !in steps[m].tags
  }

  lemma {:induction false} AnsweredTagIsGone(states: seq<State>, steps: seq<Step>, i: int, j: int, k: int, tag: string)
    requires IsRun(states, steps) && 0 <= i < j < k < |states| && NotRequested(steps, i, k, tag)
    requires AnsweredAt(states, steps, j, tag)
    ensures tag !in states[k].table
  {
    assert StepAt(states, steps, k - 1);
    if j < k - 1 {
      AnsweredTagIsGone(states, steps, i, j, k - 1, tag);
    }
  }

  /** With no further request a tag is answered for once. */
  lemma OneAnswer(states: seq<State>, steps: seq<Step>, i: int, j: int, m: int, tag: string)
    requires IsRun(states, steps) && 0 <= i < j < |steps| && i < m < |steps|
    requires NotRequested(steps, i, if j < m then m else j, tag)
    requires AnsweredAt(states, steps, j, tag) && AnsweredAt(states, steps, m, tag)
    ensures j == m
  {
    var first, last := if j < m then j else m, if j < m then m else j;
    if first < last {
      AnsweredTagIsGone(states, steps, i, first, last, tag);
      NonEmptyTableIsWatched(states, steps, last);
    }
  }

  /**
   The fate of a request, exactly: of a tag that is not out when it is requested, and not requested again, one of three
   things is true at any later state. It is still in the table, or a later call has purged it, or a later call for it
   has failed and it was dropped.
   */
  lemma FateOfRequest(states: seq<State>, steps: seq<Step>, i: int, k: int, tag: string)
    requires IsRun(states, steps) && 0 <= i < k < |states| && NotRequested(steps, i, k, tag)
    requires steps[i].Request? && tag in steps[i].tags && !IsOut(states[i], tag)
    ensures var purged, dropped := PurgedBetween(states, steps, i, k, tag), DroppedBetween(states, steps, i, k, tag);
            (tag in states[k].table <==> !purged && !dropped) && !(purged && dropped)
  {
    RequestWhileNotOutIsAnswered(states, steps, i, k, tag);
    AnswersPurgeOrDrop(states, steps, i, k, tag);
    if l, j :| i < l < j < k && LeavesAt(states, steps, l, tag) && AnsweredAt(states, steps, j, tag) {
      AnsweredTagIsGone(states, steps, i, j, k, tag);
    }
    if PurgedBetween(states, steps, i, k, tag) && DroppedBetween(states, steps, i, k, tag) {
      var l, j :| i < l < j < k && LeavesAt(states, steps, l, tag) && PurgedAt(states, steps, j, tag);
      var n, m :| i < n < m < k && LeavesAt(states, steps, n, tag) && DroppedAt(states, steps, m, tag);
      OneAnswer(states, steps, i, j, m, tag);
    }
  }

  /** Requested again or not: a tag not out at the request is kept or purged unless a later call for it failed. */
  lemma RequestIsServedUnlessDropped(states: seq<State>, steps: seq<Step>, i: int, k: int, tag: string)
    requires IsRun(states, steps) && 0 <= i < k < |states|
    requires steps[i].Request? && tag in steps[i].tags && !IsOut(states[i], tag)
    requires !DroppedBetween(states, steps, i, k, tag)
    ensures tag in states[k].table || PurgedBetween(states, steps, i, k, tag)
  {
    RequestWhileNotOutIsAnswered(states, steps, i, k, tag);
    AnswersPurgeOrDrop(states, steps, i, k, tag);
  }

  /** A failed call drops its tags: requested while not out, gone, and never purged. */
  lemma FailedCallDropsTheTag(tag: string) returns (states: seq<State>, steps: seq<Step>)
    ensures IsRun(states, steps) && |steps| == 3
    ensures steps[0] == Request({tag}) && !IsOut(states[0], tag)
    ensures states[3].table == {} && forall k :: 0 <= k < 3 ==> !PurgedAt(states, steps, k, tag)
  {
    states := [State({}, false, None), State({tag}, true, None), State({tag}, false, Some({tag})),
               State({}, false, None)];
    steps := [Request({tag}), AlarmFires({tag}), Answer(PurgeFailed, {})];
    assert |{tag}| == 1;
    assert {tag} - {tag} == {};
    assert StepAt(states, steps, 0) && StepAt(states, steps, 1) && StepAt(states, steps, 2);
  }

  /** Until the first answer after step `i` a call that is out stays out, and a requested tag stays in the table. */
  lemma {:induction false} UntilTheAnswer(states: seq<State>, steps: seq<Step>, i: int, k: int, tag: string)
    requires IsRun(states, steps) && 0 <= i < k < |states| && steps[i].Request? && tag in steps[i].tags
    requires forall l :: i < l < k ==> !steps[l].Answer?
    ensures tag in states[k].table
    ensures states[i].calling.Some? ==> states[k].calling == states[i].calling && !LeftBetween(states, steps, i, k, tag)
  {
    if k == i + 1 {
      assert StepAt(states, steps, i);
    } else {
      UntilTheAnswer(states, steps, i, k - 1, tag);
      assert StepAt(states, steps, k - 1);
    }
  }

  /**
   When a request is lost, exactly. With the first answer after the request of `tag`, the tag is still in the
   table or a call containing it has left since the request, unless the answered call contained the tag when it
   was requested and was not rate limited.
   */
  lemma RequestIsLostExactly(states: seq<State>, steps: seq<Step>, i: int, j: int, tag: string)
    requires IsRun(states, steps) && 0 <= i < j < |steps|
    requires steps[i].Request? && tag in steps[i].tags
    requires steps[j].Answer? && forall l :: i < l < j ==> !steps[l].Answer?
    ensures tag in states[j + 1].table || LeftBetween(states, steps, i, j + 1, tag) <==>
            !(IsOut(states[i], tag) && steps[j].result != RateLimitExceeded)
  {
    UntilTheAnswer(states, steps, i, j, tag);
    assert StepAt(states, steps, j);
    if IsOut(states[i], tag) {
      if steps[j].result != RateLimitExceeded {
        assert !LeavesAt(states, steps, j, tag);
        assert !LeftBetween(states, steps, i, j + 1, tag);
      }
    } else {
      RequestWhileNotOutIsAnswered(states, steps, i, j + 1, tag);
      if l, m :| i < l < m < j + 1 && LeavesAt(states, steps, l, tag) && AnsweredAt(states, steps, m, tag) {
        assert LeftBetween(states, steps, i, j + 1, tag);
      }
    }
  }

  /**
   A request for a tag whose own batch is out is dropped with that batch: the call that purges it left before the
   request, and no later one follows.
   */
  lemma RequestDuringOwnBatchIsLost(tag: string) returns (states: seq<State>, steps: seq<Step>)
    ensures IsRun(states, steps) && |steps| == 4
    ensures steps[1].AlarmFires? && steps[1].batch == {tag} && steps[2] == Request({tag})
    ensures states[4].table == {} && states[4].calling == None
    ensures forall k :: 2 <= k < 4 ==> !(steps[k].AlarmFires?)
  {
    var s0 := State({}, false, None);
    var s1, s2 := State({tag}, true, None), State({tag}, false, Some({tag}));
    var s3, s4 := State({tag}, true, Some({tag})), State({}, true, None);
    states := [s0, s1, s2, s3, s4];
    steps := [Request({tag}), AlarmFires({tag}), Request({tag}), Answer(PurgeSuccess, {})];
    assert |{tag}| == 1;
    assert {tag} - {tag} == {};
    assert StepAt(states, steps, 0) && StepAt(states, steps, 1) && StepAt(states, steps, 2) && StepAt(states, steps, 3);
  }
}
