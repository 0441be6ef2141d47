/**
 The two DynamoDB tag caches: "original" keeps one row per (tag, path), "nextMode" one row per tag
 (packages/aws/src/overrides/tagCache/dynamodb.ts and dynamodb-nextMode.ts).
 */
module TagCaches {
  import opened Wrappers
  import opened TagTypes
  import opened DynamoBatch

  /** `written` gets the stamp `at`, or the time of the write when there is none; every other row is as before. */
  ghost predicate RowsWritten(before: Rows, after: Rows, written: set<Row>, at: Option<nat>, start: nat, end: nat) {
    && after.Keys == before.Keys + written
    && (forall row :: row in written ==>
          match at
          case Some(stamp) => after[row] == stamp
          case None => start < after[row] <= end)
    && (forall row :: row in before && row !in written ==> after[row] == before[row])
  }

  function RowsOf(items: seq<WriteInput>): set<Row> {
    set item | item in items :: item.RowOf()
  }

  /** Items with one common stamp, or none: after a plan that is sent whole exactly their rows have changed. */
  lemma PlanWritesRows(before: Rows, items: seq<WriteInput>, plan: WritePlan, concurrency: int, at: Option<nat>,
                       start: nat, end: nat)
    requires IsWritePlan(plan, concurrency) && concurrency >= 1
    requires Stamped(items, plan.puts, start, end) && DistinctItems(items)
    requires forall item :: item in items ==> item.revalidatedAt == at
    ensures RowsWritten(before, PutAll(before, Sent(plan)), RowsOf(items), at, start, end)
  {
    EverythingIsSentExactly(plan, concurrency);
    PutsWriteRows(before, items, plan.puts, at, start, end);
  }

  lemma PutsWriteRows(before: Rows, items: seq<WriteInput>, puts: seq<Put>, at: Option<nat>, start: nat, end: nat)
    requires Stamped(items, puts, start, end) && DistinctRows(puts)
    requires forall item :: item in items ==> item.revalidatedAt == at
    ensures RowsWritten(before, PutAll(before, puts), RowsOf(items), at, start, end)
  {
    var after := PutAll(before, puts);
    forall row
      ensures row in RowsOf(items) ==> row in after && match at case Some(stamp) => after[row] == stamp
                                                             case None => start < after[row] <= end
      ensures row !in RowsOf(items) ==>
          (row in after <==> row in before) && (row in before ==> after[row] == before[row])
    {
      if row in RowsOf(items) {
        var i :| 0 <= i < |items| && items[i].RowOf() == row;
        assert items[i] in items;
        PutAllAt(before, puts, i);
      } else {
        forall i | 0 <= i < |puts| ensures puts[i].row != row { assert items[i] in items; }
        PutAllElsewhere(before, puts, row);
      }
    }
  }

  /** The same when only a first part of the plan is sent: the rows of that part have changed. */
  lemma PlanWritesSomeRows(before: Rows, items: seq<WriteInput>, plan: WritePlan, concurrency: int, at: Option<nat>,
                           start: nat, end: nat) returns (sent: set<Row>)
    requires IsWritePlan(plan, concurrency)
    requires Stamped(items, plan.puts, start, end) && DistinctItems(items)
    requires forall item :: item in items ==> item.revalidatedAt == at
    ensures sent <= RowsOf(items) && RowsWritten(before, PutAll(before, Sent(plan)), sent, at, start, end)
    ensures sent == RowsOf(items) <==> Sent(plan) == plan.puts
  {
    SentIsPrefix(plan, concurrency);
    var n := |Sent(plan)|;
    assert Sent(plan) == plan.puts[..n];
    sent := RowsOf(items[..n]);
    assert forall item :: item in items[..n] ==> item in items;
    PutsWriteRows(before, items[..n], plan.puts[..n], at, start, end);
    if n < |items| {
      assert items[n].RowOf() in RowsOf(items);
      assert forall k :: 0 <= k < n ==> items[k].RowOf() != items[n].RowOf();
    } else {
      assert items[..n] == items && plan.puts[..n] == plan.puts;
    }
  }

  /** Some row of `path` was stamped after `lastModified`. */
  ghost predicate StampedAfter(rows: Rows, path: string, lastModified: nat) {
    exists row :: row in rows && row.path == path && rows[row] > lastModified
  }

  class OriginalTagCache {
    var rows: Rows
    const concurrency: int

    constructor (concurrency: int)
      ensures rows == map[] && this.concurrency == concurrency
    {
      rows := map[];
      this.concurrency := concurrency;
    }

    method GetByPath(path: string) returns (tags: seq<string>)
      ensures NoDuplicates(tags)
      ensures forall tag :: tag in tags <==> Row(tag, path) in rows
    {
      tags := [];
      var items := set row | row in rows && row.path == path;
      while items != {}
        invariant forall row :: row in items ==> row in rows && row.path == path
        invariant NoDuplicates(tags)
        invariant forall tag :: tag in tags <==> Row(tag, path) in rows.Keys - items
        decreases |items|
      {
        var row :| row in items;
        assert row == Row(row.tag, path);
        tags := tags + [row.tag];
        items := items - {row};
      }
    }

    method GetByTag(tag: string) returns (paths: seq<string>)
      ensures NoDuplicates(paths)
      ensures forall path :: path in paths <==> Row(tag, path) in rows
    {
      paths := [];
      var items := set row | row in rows && row.tag == tag;
      while items != {}
        invariant forall row :: row in items ==> row in rows && row.tag == tag
        invariant NoDuplicates(paths)
        invariant forall path :: path in paths <==> Row(tag, path) in rows.Keys - items
        decreases |items|
      {
        var row :| row in items;
        assert row == Row(tag, row.path);
        paths := paths + [row.path];
        items := items - {row};
      }
    }

    /** -1 asks for a revalidation. */
    method GetLastModified(key: string, lastModified: nat) returns (r: int)
      ensures r == if StampedAfter(rows, key, lastModified) then -1 else lastModified
    {
      var revalidatedTags := set row | row in rows && row.path == key && rows[row] > lastModified;
      if revalidatedTags != {} {
        var row :| row in revalidatedTags;
        r := -1;
      } else {
        assert forall row :: row in rows && row.path == key && rows[row] > lastModified ==> row in revalidatedTags;
        r := lastModified;
      }
    }

    method WriteTags(tags: seq<WriteInput>, clock: Clock) returns (ghost plan: WritePlan)
      requires DistinctItems(tags)
      modifies this, clock
      ensures old(clock.now) <= clock.now
      ensures IsWritePlan(plan, concurrency) && Stamped(tags, plan.puts, old(clock.now), clock.now)
      ensures rows == PutAll(old(rows), Sent(plan))
    {
      var written;
      written, plan := BatchWrite(rows, tags, concurrency, clock);
      rows := written;
    }
  }

  /** A nextMode row has the tag for its path as well. */
  function TagRow(tag: string): Row { Row(tag, tag) }

  function TagRows(tags: seq<string>): set<Row> {
    set tag | tag in tags :: TagRow(tag)
  }

  /** The items a nextMode write puts: one per tag, stamped when it is put. */
  function TagItems(tags: seq<string>): (items: seq<WriteInput>)
    ensures |items| == |tags| && forall i :: 0 <= i < |items| ==> items[i] == WriteInput(tags[i], tags[i], None)
  {
    seq(|tags|, i requires 0 <= i < |tags| => WriteInput(tags[i], tags[i], None))
  }

  lemma TagItemsRows(tags: seq<string>)
    ensures RowsOf(TagItems(tags)) == TagRows(tags)
  {
    var items := TagItems(tags);
    forall i | 0 <= i < |tags| ensures TagRow(tags[i]) in RowsOf(items) { assert items[i].RowOf() == TagRow(tags[i]); }
  }

  ghost predicate SomeTagStampedAfter(rows: Rows, tags: seq<string>, lastModified: nat) {
    exists tag :: tag in tags && TagRow(tag) in rows && rows[TagRow(tag)] > lastModified
  }

  const MAX_TAGS_PER_QUERY := 100

  class NextModeTagCache {
    var rows: Rows
    const concurrency: int

    constructor (concurrency: int)
      ensures rows == map[] && this.concurrency == concurrency
    {
      rows := map[];
      this.concurrency := concurrency;
    }

    /** `None` when more than 100 tags are asked for, which the source refuses by throwing. */
    method HasBeenRevalidated(tags: seq<string>, lastModified: nat) returns (r: Option<bool>)
      ensures r.None? <==> |tags| > MAX_TAGS_PER_QUERY
      ensures r.Some? ==> r.value == SomeTagStampedAfter(rows, tags, lastModified)
    {
      if |tags| > MAX_TAGS_PER_QUERY {
        return None;
      }
      var found := false;
      for i := 0 to |tags|
        invariant found <==> SomeTagStampedAfter(rows, tags[..i], lastModified)
      {
        var item := TagRow(tags[i]);
        assert tags[..i + 1] == tags[..i] + [tags[i]];
        assert forall tag :: tag in tags[..i + 1] <==> tag in tags[..i] || tag == tags[i];
        if item in rows && rows[item] > lastModified {
          found := true;
        }
      }
      assert tags[..|tags|] == tags;
      r := Some(found);
    }

    method WriteTags(tags: seq<string>, clock: Clock) returns (ghost plan: WritePlan)
      requires NoDuplicates(tags)
      modifies this, clock
      ensures old(clock.now) <= clock.now
      ensures IsWritePlan(plan, concurrency) && Stamped(TagItems(tags), plan.puts, old(clock.now), clock.now)
      ensures rows == PutAll(old(rows), Sent(plan))
    {
      var written;
      written, plan := BatchWrite(rows, TagItems(tags), concurrency, clock);
      rows := written;
    }
  }
}
