/**
 The batched writes of both DynamoDB tag caches: items are cut into BatchWriteItem commands of at most 25
 and the commands are sent in groups (packages/aws/src/overrides/tagCache/dynamodb.ts, dynamodb-nextMode.ts).
 */
module DynamoBatch {
  import opened TagTypes
  import opened AdapterUtil

  const MAX_DYNAMO_BATCH_WRITE_ITEM_COUNT := 25

  datatype Put = Put(row: Row, at: nat)

  function PutAll(rows: Rows, puts: seq<Put>): Rows
    decreases |puts|
  {
    if puts == [] then rows else PutAll(rows[puts[0].row := puts[0].at], puts[1..])
  }

  ghost predicate DistinctRows(puts: seq<Put>) {
    forall i, j :: 0 <= i < j < |puts| ==> puts[i].row != puts[j].row
  }

  lemma {:induction false} PutAllAppend(rows: Rows, a: seq<Put>, b: seq<Put>)
    ensures PutAll(rows, a + b) == PutAll(PutAll(rows, a), b)
    decreases |a|
  {
    if a == [] {
      assert a + b == b;
    } else {
      assert (a + b)[0] == a[0] && (a + b)[1..] == a[1..] + b;
      PutAllAppend(rows[a[0].row := a[0].at], a[1..], b);
    }
  }

  /** A row no put names is left alone. */
  lemma {:induction false} PutAllElsewhere(rows: Rows, puts: seq<Put>, row: Row)
    requires forall i :: 0 <= i < |puts| ==> puts[i].row != row
    ensures row in PutAll(rows, puts) <==> row in rows
    ensures row in rows ==> PutAll(rows, puts)[row] == rows[row]
    decreases |puts|
  {
    if puts != [] {
      PutAllElsewhere(rows[puts[0].row := puts[0].at], puts[1..], row);
    }
  }

  /** With distinct rows each put decides its own row. */
  lemma {:induction false} PutAllAt(rows: Rows, puts: seq<Put>, i: int)
    requires DistinctRows(puts) && 0 <= i < |puts|
    ensures puts[i].row in PutAll(rows, puts) && PutAll(rows, puts)[puts[i].row] == puts[i].at
    decreases |puts|
  {
    var next, rest := rows[puts[0].row := puts[0].at], puts[1..];
    if i == 0 {
      PutAllElsewhere(next, rest, puts[0].row);
    } else {
      PutAllAt(next, rest, i - 1);
    }
  }

  /** `Promise.all` sends the commands of a group in no fixed order; with distinct rows the order cannot matter. */
  lemma AnyOrderOfPuts(rows: Rows, a: seq<Put>, b: seq<Put>)
    requires DistinctRows(a) && DistinctRows(b)
    requires forall put :: put in a <==> put in b
    ensures PutAll(rows, a) == PutAll(rows, b)
  {
    forall row
      ensures row in PutAll(rows, a) <==> row in PutAll(rows, b)
      ensures row in PutAll(rows, a) ==> PutAll(rows, a)[row] == PutAll(rows, b)[row]
    {
      SameAtRow(rows, a, b, row);
    }
  }

  lemma SameAtRow(rows: Rows, a: seq<Put>, b: seq<Put>, row: Row)
    requires DistinctRows(a) && DistinctRows(b)
    requires forall put :: put in a <==> put in b
    ensures row in PutAll(rows, a) <==> row in PutAll(rows, b)
    ensures row in PutAll(rows, a) ==> PutAll(rows, a)[row] == PutAll(rows, b)[row]
  {
    if i :| 0 <= i < |a| && a[i].row == row {
      assert a[i] in b;
      var j :| 0 <= j < |b| && b[j] == a[i];
      PutAllAt(rows, a, i);
      PutAllAt(rows, b, j);
    } else {
      forall j | 0 <= j < |b| ensures b[j].row != row { assert b[j] in a; }
      PutAllElsewhere(rows, a, row);
      PutAllElsewhere(rows, b, row);
    }
  }

  /** `puts` are the table items built from `items`: an explicit `revalidatedAt` is kept, a missing one is the time. */
  ghost predicate Stamped(items: seq<WriteInput>, puts: seq<Put>, after: nat, upTo: nat) {
    && |puts| == |items|
    && forall i :: 0 <= i < |items| ==>
         && puts[i].row == items[i].RowOf()
         && match items[i].revalidatedAt
            case Some(at) => puts[i].at == at
            case None => after < puts[i].at <= upTo
  }

  /** The items to write, the commands they are cut into, and the groups of commands that are sent. */
  datatype WritePlan = WritePlan(puts: seq<Put>, commands: seq<seq<Put>>, groups: seq<seq<seq<Put>>>)

  const EMPTY_PLAN := WritePlan([], [], [])

  /** Commands of 1 to 25 items holding exactly the items in order, and groups of at most `concurrency` commands. */
  ghost predicate IsWritePlan(plan: WritePlan, concurrency: int) {
    && IsChunking(plan.commands, plan.puts, MAX_DYNAMO_BATCH_WRITE_ITEM_COUNT)
    && Chunked(plan.groups, plan.commands, concurrency)
  }

  function Sent(plan: WritePlan): seq<Put> {
    Flatten(Flatten(plan.groups))
  }

  /** Everything is sent, and in order, exactly when the concurrency is positive or a single command is enough. */
  lemma EverythingIsSentExactly(plan: WritePlan, concurrency: int)
    requires IsWritePlan(plan, concurrency)
    ensures Sent(plan) == plan.puts <==>
            || concurrency >= 1
            || plan.puts == []
            || (concurrency < 0 && |plan.puts| <= MAX_DYNAMO_BATCH_WRITE_ITEM_COUNT)
  {
    ChunkingLength(plan.commands, plan.puts, MAX_DYNAMO_BATCH_WRITE_ITEM_COUNT);
    if concurrency < 0 && plan.puts != [] {
      FirstLength(plan.commands, plan.puts, MAX_DYNAMO_BATCH_WRITE_ITEM_COUNT);
      var first := plan.commands[0];
      assert plan.groups == [[first]];
      assert Flatten(plan.groups) == [first];
      assert Flatten([first]) == first;
      if |plan.commands| == 1 { assert plan.commands == [first]; }
    }
  }

  /** Whatever the concurrency, what is sent is a first part of the plan. */
  lemma SentIsPrefix(plan: WritePlan, concurrency: int)
    requires IsWritePlan(plan, concurrency)
    ensures Sent(plan) <= plan.puts
  {
    EverythingIsSentExactly(plan, concurrency);
    if concurrency < 0 && plan.puts != [] {
      ChunkingLength(plan.commands, plan.puts, MAX_DYNAMO_BATCH_WRITE_ITEM_COUNT);
      var first := plan.commands[0];
      assert Flatten(plan.groups) == [first];
      assert Flatten([first]) == first;
    }
  }

  /** 26 items and a concurrency of -1: the second command is never sent. */
  lemma LastItemIsNotSent() returns (plan: WritePlan)
    ensures IsWritePlan(plan, -1) && |plan.puts| == 26 && DistinctRows(plan.puts)
    ensures Sent(plan) == plan.puts[..25]
  {
    var n := MAX_DYNAMO_BATCH_WRITE_ITEM_COUNT;
    var puts := seq(n + 1, i requires 0 <= i <= n => Put(Row("tag", seq(i, _ => 'x')), 0));
    forall i, j | 0 <= i < j <= n ensures puts[i].row != puts[j].row {
      assert |puts[i].row.path| == i && |puts[j].row.path| == j;
    }
    var first, last := puts[..n], puts[n..];
    FlattenSnoc([first], last);
    assert Flatten([first]) == first;
    plan := WritePlan(puts, [first] + [last], [[first]]);
    assert Flatten(plan.groups) == [first];
  }

  ghost predicate DistinctItems(items: seq<WriteInput>) {
    forall i, j :: 0 <= i < j < |items| ==> items[i].RowOf() != items[j].RowOf()
  }

  method StampBatch(items: seq<WriteInput>, clock: Clock) returns (puts: seq<Put>)
    modifies clock
    ensures old(clock.now) <= clock.now
    ensures Stamped(items, puts, old(clock.now), clock.now)
  {
    puts := [];
    for i := 0 to |items|
      invariant old(clock.now) <= clock.now
      invariant Stamped(items[..i], puts, old(clock.now), clock.now)
    {
      var at;
      if items[i].revalidatedAt.Some? {
        at := items[i].revalidatedAt.value;
      } else {
        at := clock.DateNow();
      }
      puts := puts + [Put(items[i].RowOf(), at)];
    }
  }

  lemma StampedAppend(a: seq<WriteInput>, p: seq<Put>, b: seq<WriteInput>, q: seq<Put>,
                      after: nat, middle: nat, upTo: nat)
    requires Stamped(a, p, after, middle) && Stamped(b, q, middle, upTo)
    requires after <= middle <= upTo
    ensures Stamped(a + b, p + q, after, upTo)
  {
  }

  /**
   `writeTags` of a DynamoDB tag cache, on the table contents. BatchWriteItem refuses a command that names a row
   twice.
   */
  method BatchWrite(rows: Rows, items: seq<WriteInput>, concurrency: int, clock: Clock)
    returns (rows': Rows, ghost plan: WritePlan)
    requires DistinctItems(items)
    modifies clock
    ensures old(clock.now) <= clock.now
    ensures Stamped(items, plan.puts, old(clock.now), clock.now) && DistinctRows(plan.puts)
    ensures IsWritePlan(plan, concurrency)
    ensures rows' == PutAll(rows, Sent(plan))
  {
    var batches := Chunk(items, MAX_DYNAMO_BATCH_WRITE_ITEM_COUNT);
    var dataChunks: seq<seq<Put>> := [];
    for i := 0 to |batches|
      invariant old(clock.now) <= clock.now
      invariant |dataChunks| == i
      invariant forall k :: 0 <= k < i ==> |dataChunks[k]| == |batches[k]|
      invariant Stamped(Flatten(batches[..i]), Flatten(dataChunks), old(clock.now), clock.now)
    {
      ghost var middle := clock.now;
      var puts := StampBatch(batches[i], clock);
      assert batches[..i + 1] == batches[..i] + [batches[i]];
      FlattenSnoc(batches[..i], batches[i]);
      FlattenSnoc(dataChunks, puts);
      StampedAppend(Flatten(batches[..i]), Flatten(dataChunks), batches[i], puts, old(clock.now), middle, clock.now);
      dataChunks := dataChunks + [puts];
    }
    assert batches[..|batches|] == batches;

    var toInsert := Chunk(dataChunks, concurrency);
    plan := WritePlan(Flatten(dataChunks), dataChunks, toInsert);
    rows' := rows;
    for g := 0 to |toInsert|
      modifies {}
      invariant rows' == PutAll(rows, Flatten(Flatten(toInsert[..g])))
    {
      rows' := SendGroup(rows', toInsert[g]);
      assert toInsert[..g + 1] == toInsert[..g] + [toInsert[g]];
      FlattenSnoc(toInsert[..g], toInsert[g]);
      FlattenAppend(Flatten(toInsert[..g]), toInsert[g]);
      PutAllAppend(rows, Flatten(Flatten(toInsert[..g])), Flatten(toInsert[g]));
    }
    assert toInsert[..|toInsert|] == toInsert;
  }

  method SendGroup(rows: Rows, paramsChunk: seq<seq<Put>>) returns (rows': Rows)
    ensures rows' == PutAll(rows, Flatten(paramsChunk))
  {
    rows' := rows;
    for b := 0 to |paramsChunk|
      invariant rows' == PutAll(rows, Flatten(paramsChunk[..b]))
    {
      rows' := PutAll(rows', paramsChunk[b]);
      assert paramsChunk[..b + 1] == paramsChunk[..b] + [paramsChunk[b]];
      FlattenSnoc(paramsChunk[..b], paramsChunk[b]);
      PutAllAppend(rows, Flatten(paramsChunk[..b]), paramsChunk[b]);
    }
    assert paramsChunk[..|paramsChunk|] == paramsChunk;
  }

  lemma {:induction false} FlattenAppend<T>(a: seq<seq<T>>, b: seq<seq<T>>)
    ensures Flatten(a + b) == Flatten(a) + Flatten(b)
  {
    if a == [] {
      assert a + b == b;
    } else {
      assert (a + b)[1..] == a[1..] + b;
      FlattenAppend(a[1..], b);
    }
  }
}
