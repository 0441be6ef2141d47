/** packages/core/src/utils/cache.ts: the per-request de-duplication of `writeTags`. */
module CacheUtils {
  import opened Wrappers
  import opened TagTypes
  import opened TagCaches
  import opened DynamoBatch
  import opened AdapterUtil

  /** `string | OriginalTagCacheWriteInput` */
  datatype TagWrite = TagName(name: string) | TagRow(input: WriteInput)

  /** `getTagKey`: the JSON text of a row is represented by the row itself. */
  datatype TagKey = NameKey(name: string) | RowKey(row: Row)

  function KeyOf(write: TagWrite): TagKey {
    match write
    case TagName(name) => NameKey(name)
    case TagRow(input) => RowKey(input.RowOf())
  }

  function KeysOf(writes: seq<TagWrite>): set<TagKey> {
    set write | write in writes :: KeyOf(write)
  }

  /** The writes whose key is seen for the first time in the request. */
  function FirstUnwritten(writes: seq<TagWrite>, written: set<TagKey>): seq<TagWrite> {
    if writes == [] then []
    else
      var key := KeyOf(writes[0]);
      if key in written then FirstUnwritten(writes[1..], written)
      else [writes[0]] + FirstUnwritten(writes[1..], written + {key})
  }

  /** Position `i` holds the first write of its key, and the request has not written that key before. */
  ghost predicate IsFirst(writes: seq<TagWrite>, written: set<TagKey>, i: int)
    requires 0 <= i < |writes|
  {
    KeyOf(writes[i]) !in written && forall j :: 0 <= j < i ==> KeyOf(writes[j]) != KeyOf(writes[i])
  }

  /** Reference definition: the writes at first positions below `n`, in order. */
  ghost function FirstsBelow(writes: seq<TagWrite>, written: set<TagKey>, n: nat): seq<TagWrite>
    requires n <= |writes|
  {
    if n == 0 then []
    else FirstsBelow(writes, written, n - 1) + if IsFirst(writes, written, n - 1) then [writes[n - 1]] else []
  }

  /** The one-pass filter keeps exactly the first occurrences of new keys, in order. */
  lemma {:induction false} FilterKeepsFirsts(writes: seq<TagWrite>, written: set<TagKey>, n: nat)
    requires n <= |writes|
    ensures FirstUnwritten(writes[..n], written) == FirstsBelow(writes, written, n)
  {
    if n > 0 {
      var before, last := writes[..n - 1], writes[n - 1];
      FilterKeepsFirsts(writes, written, n - 1);
      assert writes[..n] == before + [last];
      CallsOfOneRequest(before, [last], written);
      assert IsFirst(writes, written, n - 1) <==> KeyOf(last) !in written + KeysOf(before) by {
        if KeyOf(last) in KeysOf(before) {
          var j :| 0 <= j < n - 1 && KeyOf(before[j]) == KeyOf(last);
          assert KeyOf(writes[j]) == KeyOf(last);
        }
        forall j | 0 <= j < n - 1 ensures KeyOf(writes[j]) in KeysOf(before) {
          assert writes[j] == before[j];
        }
      }
    }
  }

  /** What the batch writer needs: the picked keys are distinct, new, and cover every key asked for. */
  lemma {:induction false} FirstUnwrittenKeys(writes: seq<TagWrite>, written: set<TagKey>)
    ensures KeysOf(FirstUnwritten(writes, written)) == KeysOf(writes) - written
    ensures forall i, j :: 0 <= i < j < |FirstUnwritten(writes, written)| ==>
              KeyOf(FirstUnwritten(writes, written)[i]) != KeyOf(FirstUnwritten(writes, written)[j])
  {
    if writes != [] {
      var key := KeyOf(writes[0]);
      assert KeysOf(writes) == {key} + KeysOf(writes[1..]);
      if key in written {
        FirstUnwrittenKeys(writes[1..], written);
      } else {
        FirstUnwrittenKeys(writes[1..], written + {key});
        var rest := FirstUnwritten(writes[1..], written + {key});
        assert KeysOf([writes[0]] + rest) == {key} + KeysOf(rest);
        forall j | 0 <= j < |rest| ensures KeyOf(rest[j]) != key { assert KeyOf(rest[j]) in KeysOf(rest); }
      }
    }
  }

  /** The calls of one request act like a single call on all their writes: nothing is written twice, nothing is lost. */
  lemma {:induction false} CallsOfOneRequest(a: seq<TagWrite>, b: seq<TagWrite>, written: set<TagKey>)
    ensures FirstUnwritten(a + b, written)
         == FirstUnwritten(a, written) + FirstUnwritten(b, written + KeysOf(a))
  {
    if a == [] {
      assert a + b == b;
      assert written + KeysOf(a) == written;
    } else {
      var key := KeyOf(a[0]);
      assert (a + b)[0] == a[0] && (a + b)[1..] == a[1..] + b;
      assert KeysOf(a) == {key} + KeysOf(a[1..]);
      if key in written {
        assert written + KeysOf(a) == written + KeysOf(a[1..]);
        CallsOfOneRequest(a[1..], b, written);
      } else {
        assert written + KeysOf(a) == written + {key} + KeysOf(a[1..]);
        CallsOfOneRequest(a[1..], b, written + {key});
      }
    }
  }

  /** The OpenNext request context; only its `writtenTags` set matters here. */
  class RequestContext {
    var writtenTags: set<TagKey>

    constructor ()
      ensures writtenTags == {}
    {
      writtenTags := {};
    }

    /** The `filter` at the head of `writeTags`, which adds each new key to the request's set as it goes. */
    method SelectUnwritten(writes: seq<TagWrite>) returns (toWrite: seq<TagWrite>)
      modifies this
      ensures toWrite == FirstUnwritten(writes, old(writtenTags))
      ensures writtenTags == old(writtenTags) + KeysOf(writes)
    {
      toWrite := [];
      for i := 0 to |writes|
        invariant toWrite == FirstUnwritten(writes[..i], old(writtenTags))
        invariant writtenTags == old(writtenTags) + KeysOf(writes[..i])
      {
        var key := KeyOf(writes[i]);
        assert writes[..i + 1] == writes[..i] + [writes[i]];
        CallsOfOneRequest(writes[..i], [writes[i]], old(writtenTags));
        assert KeysOf(writes[..i + 1]) == KeysOf(writes[..i]) + {key};
        if key !in writtenTags {
          writtenTags := writtenTags + {key};
          toWrite := toWrite + [writes[i]];
        }
      }
      assert writes[..|writes|] == writes;
    }
  }

  function RowWrites(inputs: seq<WriteInput>): (writes: seq<TagWrite>)
    ensures |writes| == |inputs| && forall i :: 0 <= i < |writes| ==> writes[i] == TagRow(inputs[i])
  {
    seq(|inputs|, i requires 0 <= i < |inputs| => TagRow(inputs[i]))
  }

  function NameWrites(names: seq<string>): (writes: seq<TagWrite>)
    ensures |writes| == |names| && forall i :: 0 <= i < |writes| ==> writes[i] == TagName(names[i])
  {
    seq(|names|, i requires 0 <= i < |names| => TagName(names[i]))
  }

  /** The rows, respectively names, behind a set of keys. */
  function RowsIn(keys: set<TagKey>): set<Row> {
    set key | key in keys && key.RowKey? :: key.row
  }

  function NamesIn(keys: set<TagKey>): set<string> {
    set key | key in keys && key.NameKey? :: key.name
  }

  lemma {:induction false} FirstUnwrittenIsSublist(writes: seq<TagWrite>, written: set<TagKey>)
    ensures forall write :: write in FirstUnwritten(writes, written) ==> write in writes
  {
    if writes != [] {
      FirstUnwrittenIsSublist(writes[1..], written);
      FirstUnwrittenIsSublist(writes[1..], written + {KeyOf(writes[0])});
    }
  }

  lemma KeysOfRowWrites(inputs: seq<WriteInput>)
    ensures forall key :: key in KeysOf(RowWrites(inputs)) <==> key.RowKey? && key.row in RowsOf(inputs)
  {
    var writes := RowWrites(inputs);
    forall i | 0 <= i < |inputs| ensures RowKey(inputs[i].RowOf()) in KeysOf(writes) {
      assert KeyOf(writes[i]) == RowKey(inputs[i].RowOf());
    }
  }

  lemma RowsInAfter(written: set<TagKey>, inputs: seq<WriteInput>)
    ensures RowsIn(written + KeysOf(RowWrites(inputs))) == RowsIn(written) + RowsOf(inputs)
  {
    KeysOfRowWrites(inputs);
    forall row | row in RowsOf(inputs) ensures row in RowsIn(written + KeysOf(RowWrites(inputs))) {
      assert RowKey(row) in KeysOf(RowWrites(inputs));
    }
  }

  lemma KeysOfNameWrites(names: seq<string>)
    ensures forall key :: key in KeysOf(NameWrites(names)) <==> key.NameKey? && key.name in names
  {
    var writes := NameWrites(names);
    forall i | 0 <= i < |names| ensures NameKey(names[i]) in KeysOf(writes) {
      assert KeyOf(writes[i]) == NameKey(names[i]);
    }
  }

  /** The inputs the filter keeps of one call. */
  function KeptInputs(inputs: seq<WriteInput>, written: set<TagKey>): (kept: seq<WriteInput>)
    ensures RowWrites(kept) == FirstUnwritten(RowWrites(inputs), written)
  {
    FirstUnwrittenIsSublist(RowWrites(inputs), written);
    var writes := FirstUnwritten(RowWrites(inputs), written);
    assert forall i :: 0 <= i < |writes| ==> writes[i] in writes;
    seq(|writes|, i requires 0 <= i < |writes| && writes[i].TagRow? => writes[i].input)
  }

  function KeptNames(names: seq<string>, written: set<TagKey>): (kept: seq<string>)
    ensures NameWrites(kept) == FirstUnwritten(NameWrites(names), written)
  {
    FirstUnwrittenIsSublist(NameWrites(names), written);
    var writes := FirstUnwritten(NameWrites(names), written);
    assert forall i :: 0 <= i < |writes| ==> writes[i] in writes;
    seq(|writes|, i requires 0 <= i < |writes| && writes[i].TagName? => writes[i].name)
  }

  lemma KeptInputsAre(inputs: seq<WriteInput>, written: set<TagKey>)
    ensures DistinctItems(KeptInputs(inputs, written))
    ensures RowsOf(KeptInputs(inputs, written)) == RowsOf(inputs) - RowsIn(written)
    ensures forall input :: input in KeptInputs(inputs, written) ==> input in inputs
  {
    var kept, writes := KeptInputs(inputs, written), FirstUnwritten(RowWrites(inputs), written);
    FirstUnwrittenKeys(RowWrites(inputs), written);
    FirstUnwrittenIsSublist(RowWrites(inputs), written);
    KeysOfRowWrites(inputs);
    KeysOfRowWrites(kept);
    forall i, j | 0 <= i < j < |kept| ensures kept[i].RowOf() != kept[j].RowOf() {
      assert KeyOf(RowWrites(kept)[i]) != KeyOf(RowWrites(kept)[j]);
    }
    forall row ensures row in RowsOf(kept) <==> row in RowsOf(inputs) - RowsIn(written) {
      assert RowKey(row) in KeysOf(RowWrites(kept)) <==> RowKey(row) in KeysOf(RowWrites(inputs)) - written;
    }
    forall i | 0 <= i < |kept| ensures kept[i] in inputs {
      assert writes[i] == TagRow(kept[i]) && writes[i] in RowWrites(inputs);
    }
  }

  lemma KeptNamesAre(names: seq<string>, written: set<TagKey>)
    ensures NoDuplicates(KeptNames(names, written))
    ensures forall name :: name in KeptNames(names, written) <==> name in names && name !in NamesIn(written)
  {
    var kept := KeptNames(names, written);
    FirstUnwrittenKeys(NameWrites(names), written);
    KeysOfNameWrites(names);
    KeysOfNameWrites(kept);
    forall i, j | 0 <= i < j < |kept| ensures kept[i] != kept[j] {
      assert KeyOf(NameWrites(kept)[i]) != KeyOf(NameWrites(kept)[j]);
    }
    forall name ensures name in kept <==> name in names && name !in NamesIn(written) {
      assert NameKey(name) in KeysOf(NameWrites(kept)) <==> NameKey(name) in KeysOf(NameWrites(names)) - written;
    }
  }

  /** `writeTags` with an original-mode tag cache: the plan holds the first writes of keys new to the request. */
  method WriteRowTags(inputs: seq<WriteInput>, context: RequestContext, tagCache: OriginalTagCache, clock: Clock)
    returns (ghost plan: WritePlan)
    modifies context, tagCache, clock
    ensures old(clock.now) <= clock.now
    ensures context.writtenTags == old(context.writtenTags) + KeysOf(RowWrites(inputs))
    ensures IsWritePlan(plan, tagCache.concurrency)
    ensures Stamped(KeptInputs(inputs, old(context.writtenTags)), plan.puts, old(clock.now), clock.now)
    ensures tagCache.rows == PutAll(old(tagCache.rows), Sent(plan))
  {
    ghost var written := context.writtenTags;
    var toWrite := context.SelectUnwritten(RowWrites(inputs));
    FirstUnwrittenIsSublist(RowWrites(inputs), written);
    assert forall i :: 0 <= i < |toWrite| ==> toWrite[i] in toWrite;
    plan := EMPTY_PLAN;
    if |toWrite| == 0 {
      return;
    }
    var rowsToWrite := seq(|toWrite|, i requires 0 <= i < |toWrite| && toWrite[i].TagRow? => toWrite[i].input);
    assert rowsToWrite == KeptInputs(inputs, written);
    KeptInputsAre(inputs, written);
    plan := tagCache.WriteTags(rowsToWrite, clock);
  }

  /**
   When the inputs of a call have one common stamp, or none, only their new rows change, and all of them exactly when
   the whole plan is sent.
   */
  lemma CallWritesRows(before: Rows, inputs: seq<WriteInput>, written: set<TagKey>, plan: WritePlan, concurrency: int,
                       at: Option<nat>, start: nat, end: nat) returns (sent: set<Row>)
    requires IsWritePlan(plan, concurrency)
    requires Stamped(KeptInputs(inputs, written), plan.puts, start, end)
    requires forall input :: input in inputs ==> input.revalidatedAt == at
    ensures sent <= RowsOf(inputs) - RowsIn(written)
    ensures RowsWritten(before, PutAll(before, Sent(plan)), sent, at, start, end)
    ensures sent == RowsOf(inputs) - RowsIn(written) <==> Sent(plan) == plan.puts
    ensures concurrency >= 1 ==> Sent(plan) == plan.puts
  {
    KeptInputsAre(inputs, written);
    EverythingIsSentExactly(plan, concurrency);
    sent := PlanWritesSomeRows(before, KeptInputs(inputs, written), plan, concurrency, at, start, end);
  }

  /** `writeTags` with a nextMode tag cache: tags are plain strings. */
  method WriteTagNames(names: seq<string>, context: RequestContext, tagCache: NextModeTagCache, clock: Clock)
    returns (ghost plan: WritePlan)
    modifies context, tagCache, clock
    ensures old(clock.now) <= clock.now
    ensures context.writtenTags == old(context.writtenTags) + KeysOf(NameWrites(names))
    ensures IsWritePlan(plan, tagCache.concurrency)
    ensures Stamped(TagItems(KeptNames(names, old(context.writtenTags))), plan.puts, old(clock.now), clock.now)
    ensures tagCache.rows == PutAll(old(tagCache.rows), Sent(plan))
  {
    ghost var written := context.writtenTags;
    var toWrite := context.SelectUnwritten(NameWrites(names));
    FirstUnwrittenIsSublist(NameWrites(names), written);
    assert forall i :: 0 <= i < |toWrite| ==> toWrite[i] in toWrite;
    plan := EMPTY_PLAN;
    if |toWrite| == 0 {
      return;
    }
    var namesToWrite := seq(|toWrite|, i requires 0 <= i < |toWrite| && toWrite[i].TagName? => toWrite[i].name);
    assert namesToWrite == KeptNames(names, written);
    KeptNamesAre(names, written);
    plan := tagCache.WriteTags(namesToWrite, clock);
  }

  /** The rows of the names new to the request. */
  function NewTagRows(names: seq<string>, written: set<TagKey>): set<Row> {
    TagRows(names) - (set name | name in NamesIn(written) :: TagCaches.TagRow(name))
  }

  /** A nextMode call stamps only those, and all of them exactly when the whole plan is sent. */
  lemma CallWritesNames(before: Rows, names: seq<string>, written: set<TagKey>, plan: WritePlan, concurrency: int,
                        start: nat, end: nat) returns (sent: set<Row>)
    requires IsWritePlan(plan, concurrency)
    requires Stamped(TagItems(KeptNames(names, written)), plan.puts, start, end)
    ensures sent <= NewTagRows(names, written)
    ensures RowsWritten(before, PutAll(before, Sent(plan)), sent, None, start, end)
    ensures sent == NewTagRows(names, written) <==> Sent(plan) == plan.puts
    ensures concurrency >= 1 ==> Sent(plan) == plan.puts
  {
    var kept := KeptNames(names, written);
    KeptNamesAre(names, written);
    TagItemsRows(kept);
    assert DistinctItems(TagItems(kept));
    EverythingIsSentExactly(plan, concurrency);
    sent := PlanWritesSomeRows(before, TagItems(kept), plan, concurrency, None, start, end);
    assert TagRows(kept) == NewTagRows(names, written);
  }

  // ---- All calls of one request

  /** One call of `writeTags`, with the plan it made between `start` and `end`. */
  datatype Call = Call(inputs: seq<WriteInput>, plan: WritePlan, start: nat, end: nat)

  function Given(calls: seq<Call>): seq<WriteInput> {
    if calls == [] then [] else calls[0].inputs + Given(calls[1..])
  }

  function AllCommands(calls: seq<Call>): seq<seq<Put>> {
    if calls == [] then [] else calls[0].plan.commands + AllCommands(calls[1..])
  }

  /** Calls as `WriteRowTags` makes them one after the other, from a request that has written `written`. */
  ghost predicate IsRequest(calls: seq<Call>, written: set<TagKey>, concurrency: int) {
    calls == [] ||
    (&& IsWritePlan(calls[0].plan, concurrency)
     && calls[0].start <= calls[0].end && (|calls| > 1 ==> calls[0].end <= calls[1].start)
     && Stamped(KeptInputs(calls[0].inputs, written), calls[0].plan.puts, calls[0].start, calls[0].end)
     && IsRequest(calls[1..], written + KeysOf(RowWrites(calls[0].inputs)), concurrency))
  }

  lemma KeptOfTwo(a: seq<WriteInput>, b: seq<WriteInput>, written: set<TagKey>)
    ensures KeptInputs(a + b, written) == KeptInputs(a, written) + KeptInputs(b, written + KeysOf(RowWrites(a)))
  {
    assert RowWrites(a + b) == RowWrites(a) + RowWrites(b);
    CallsOfOneRequest(RowWrites(a), RowWrites(b), written);
    var kept, x, y := KeptInputs(a + b, written), KeptInputs(a, written), KeptInputs(b, written + KeysOf(RowWrites(a)));
    assert RowWrites(kept) == RowWrites(x) + RowWrites(y);
    forall i | 0 <= i < |kept| ensures kept[i] == (x + y)[i] {
      assert RowWrites(kept)[i] == (RowWrites(x) + RowWrites(y))[i];
    }
  }

  /** The first call and the rest of a request, side by side. */
  lemma RequestUnfolds(calls: seq<Call>, written: set<TagKey>, concurrency: int)
    requires calls != [] && IsRequest(calls, written, concurrency)
    ensures KeptInputs(Given(calls), written) ==
            KeptInputs(calls[0].inputs, written)
            + KeptInputs(Given(calls[1..]), written + KeysOf(RowWrites(calls[0].inputs)))
    ensures Flatten(AllCommands(calls)) == calls[0].plan.puts + Flatten(AllCommands(calls[1..]))
  {
    KeptOfTwo(calls[0].inputs, Given(calls[1..]), written);
    FlattenAppend(calls[0].plan.commands, AllCommands(calls[1..]));
  }

  lemma JoinedStamps(a: seq<WriteInput>, p: seq<Put>, b: seq<WriteInput>, q: seq<Put>,
                     start: nat, between: nat, next: nat, end: nat)
    requires Stamped(a, p, start, between) && Stamped(b, q, next, end) && start <= between <= next <= end
    ensures Stamped(a + b, p + q, start, end)
  {
    WidenedStamps(a, p, start, between, next);
    StampedAppend(a, p, b, q, start, next, end);
  }

  lemma {:induction false} RequestIsStamped(calls: seq<Call>, written: set<TagKey>, concurrency: int)
    requires calls != [] && IsRequest(calls, written, concurrency)
    ensures calls[0].start <= calls[|calls| - 1].end
    ensures Stamped(KeptInputs(Given(calls), written), Flatten(AllCommands(calls)),
                    calls[0].start, calls[|calls| - 1].end)
  {
    var call, rest, end := calls[0], calls[1..], calls[|calls| - 1].end;
    var written' := written + KeysOf(RowWrites(call.inputs));
    var later, puts := KeptInputs(Given(rest), written'), Flatten(AllCommands(rest));
    RequestUnfolds(calls, written, concurrency);
    if rest == [] {
      assert Given(rest) == [] && later == [] && puts == [];
    } else {
      RequestIsStamped(rest, written', concurrency);
      assert rest[|rest| - 1].end == end;
      JoinedStamps(KeptInputs(call.inputs, written), call.plan.puts, later, puts,
                   call.start, call.end, rest[0].start, end);
    }
  }

  ghost predicate SmallCommands(commands: seq<seq<Put>>) {
    forall i :: 0 <= i < |commands| ==> 1 <= |commands[i]| <= MAX_DYNAMO_BATCH_WRITE_ITEM_COUNT
  }

  lemma {:induction false} RequestHasSmallCommands(calls: seq<Call>, written: set<TagKey>, concurrency: int)
    requires IsRequest(calls, written, concurrency)
    ensures SmallCommands(AllCommands(calls))
  {
    if calls != [] {
      RequestHasSmallCommands(calls[1..], written + KeysOf(RowWrites(calls[0].inputs)), concurrency);
    }
  }

  /**
   The batches of all calls of a request, taken together, hold the first occurrences of the keys it had not written, in
   the order they were given, each stamped while the request ran, and no row twice; every batch has 1 to 25 items.
   */
  lemma RequestWritesFirsts(calls: seq<Call>, written: set<TagKey>, concurrency: int)
    requires calls != [] && IsRequest(calls, written, concurrency)
    ensures Stamped(KeptInputs(Given(calls), written), Flatten(AllCommands(calls)),
                    calls[0].start, calls[|calls| - 1].end)
    ensures DistinctRows(Flatten(AllCommands(calls))) && SmallCommands(AllCommands(calls))
  {
    RequestIsStamped(calls, written, concurrency);
    RequestHasSmallCommands(calls, written, concurrency);
    KeptInputsAre(Given(calls), written);
  }

  lemma WidenedStamps(items: seq<WriteInput>, puts: seq<Put>, after: nat, upTo: nat, later: nat)
    requires Stamped(items, puts, after, upTo) && upTo <= later
    ensures Stamped(items, puts, after, later)
  {
  }
}
