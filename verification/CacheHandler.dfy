/**
 packages/core/src/adapters/cache-handler.ts: get, set, delete and revalidate-tags over an incremental cache
 and a tag cache, in both tag-cache modes, for entries of type "cache".
 */
module CacheHandler {
  import opened Wrappers
  import opened CacheTypes
  import opened TagTypes
  import opened TagCaches
  import opened CacheUtils
  import opened AdapterUtil

  datatype Stored = Stored(value: CachedFile, lastModified: nat)

  /** Everything the two handlers persist; `rows` belongs to the original mode, `stamps` to the nextMode. */
  datatype State = State(entries: map<string, Stored>, rows: Rows, stamps: Rows, now: nat)

  datatype Op =
    | Set(key: string, additionalTags: seq<string>, value: CachedFile)
    | Delete(key: string)
    | RevalidateTags(tags: seq<string>)

  datatype Mode = OriginalMode | NextMode

  datatype GetResponse =
    | NotFound
    | Revalidated
    | Hit(value: CachedFile, lastModified: nat)
    | GetFailed

  datatype Ack = Done | BadRequest

  /** The parsed body of `POST /cache/revalidate-tags`; `NotStrings` is any `tags` that is no array of strings. */
  datatype RevalidateBody = EmptyBody | InvalidJson | NotStrings | TagList(tags: seq<string>)

  /** Time as the incremental cache reports it: S3's last-modified header counts whole seconds. */
  function RoundDown(time: nat, granularity: nat): (r: nat)
    requires granularity >= 1
    ensures r <= time < r + granularity
  {
    time - time % granularity
  }

  /** The time is cut to whole units: a multiple, and the last one not after it. */
  lemma RoundDownIsWhole(time: nat, granularity: nat)
    requires granularity >= 1
    ensures RoundDown(time, granularity) % granularity == 0
    ensures RoundDown(time, granularity) <= time < RoundDown(time, granularity) + granularity
  {
    var r, q := RoundDown(time, granularity), time / granularity;
    assert r == q * granularity + 0;
    QuotientUnique(r, granularity, q, 0);
  }

  // ---- What each operation does to the persisted state

  ghost predicate NextEntries(s: State, op: Op, s': State, granularity: nat)
    requires granularity >= 1
  {
    match op
    case Set(key, _, value) =>
      exists time :: s.now < time <= s'.now
          && s'.entries == s.entries[key := Stored(value, RoundDown(time, granularity))]
    case Delete(key) => s'.entries == s.entries - {key}
    case RevalidateTags(_) => s'.entries == s.entries
  }

  /** The rows a set adds: one per tag of the entry that its path does not have yet. */
  function SetRows(key: string, tags: seq<string>): set<Row> {
    set tag | tag in tags :: Row(tag, key)
  }

  /**
   The rows one revalidated tag reaches: its own, and when it is a soft tag every row of every
   hard tag carried by one of its paths.
   */
  ghost predicate Reaches(keys: set<Row>, tag: string, row: Row) {
    || row.tag == tag
    || (&& IsSoft(tag) && !IsSoft(row.tag)
        && exists hop :: hop in keys && hop.tag == tag && Row(row.tag, hop.path) in keys)
  }

  ghost function ReachedBy(keys: set<Row>, tag: string): set<Row> {
    set row | row in keys && Reaches(keys, tag, row)
  }

  ghost function Reached(keys: set<Row>, tags: seq<string>): set<Row> {
    set row | row in keys && exists tag :: tag in tags && Reaches(keys, tag, row)
  }

  ghost predicate NextRows(s: State, op: Op, s': State) {
    match op
    case Set(key, additionalTags, value) =>
      RowsWritten(s.rows, s'.rows, SetRows(key, additionalTags + TagsOf(value)) - s.rows.Keys, Some(1), s.now, s'.now)
    case Delete(_) => s'.rows == s.rows
    case RevalidateTags(tags) => RowsWritten(s.rows, s'.rows, Reached(s.rows.Keys, tags), None, s.now, s'.now)
  }

  ghost predicate NextStamps(s: State, op: Op, s': State) {
    match op
    case RevalidateTags(tags) => RowsWritten(s.stamps, s'.stamps, TagRows(tags), None, s.now, s'.now)
    case _ => s'.stamps == s.stamps
  }

  /** Some of the wanted rows are written and no others: what a negative write concurrency leaves of an operation. */
  ghost predicate PartlyWritten(before: Rows, after: Rows, wanted: set<Row>, at: Option<nat>, start: nat, end: nat) {
    exists sent :: sent <= wanted && RowsWritten(before, after, sent, at, start, end)
  }

  ghost predicate NextRowsPartly(s: State, op: Op, s': State) {
    match op
    case Set(key, additionalTags, value) =>
      PartlyWritten(s.rows, s'.rows, SetRows(key, additionalTags + TagsOf(value)) - s.rows.Keys, Some(1), s.now, s'.now)
    case Delete(_) => s'.rows == s.rows
    case RevalidateTags(tags) => PartlyWritten(s.rows, s'.rows, Reached(s.rows.Keys, tags), None, s.now, s'.now)
  }

  ghost predicate NextStampsPartly(s: State, op: Op, s': State) {
    match op
    case RevalidateTags(tags) => PartlyWritten(s.stamps, s'.stamps, TagRows(tags), None, s.now, s'.now)
    case _ => s'.stamps == s.stamps
  }

  // ---- What a get answers

  ghost predicate Refuses(s: State, mode: Mode, key: string, tags: seq<string>, lastModified: nat) {
    match mode
    case OriginalMode => StampedAfter(s.rows, key, lastModified)
    case NextMode => SomeTagStampedAfter(s.stamps, tags, lastModified)
  }

  ghost function GetAnswer(s: State, mode: Mode, key: string, additionalTags: seq<string>): GetResponse {
    if key !in s.entries then NotFound
    else
      var Stored(value, lastModified) := s.entries[key];
      var tags := additionalTags + TagsOf(value);
      if mode.NextMode? && |tags| > MAX_TAGS_PER_QUERY then GetFailed
      else if Refuses(s, mode, key, tags, lastModified) then Revalidated
      else Hit(Stripped(value), lastModified)
  }

  /** A store that hands out fresh copies, as one that keeps JSON text does. */
  class IncrementalCache {
    var entries: map<string, Stored>
    const granularity: nat

    constructor (granularity: nat)
      ensures entries == map[] && this.granularity == granularity
    {
      entries := map[];
      this.granularity := granularity;
    }

    method Get(key: string) returns (result: Option<Stored>)
      ensures result == if key in entries then Some(entries[key]) else None
    {
      result := if key in entries then Some(entries[key]) else None;
    }

    method Put(key: string, value: CachedFile, clock: Clock) returns (ghost time: nat)
      requires granularity >= 1
      modifies this, clock
      ensures old(clock.now) < time <= clock.now
      ensures entries == old(entries)[key := Stored(value, RoundDown(time, granularity))]
    {
      var now := clock.DateNow();
      time := now;
      entries := entries[key := Stored(value, RoundDown(now, granularity))];
    }

    method Remove(key: string)
      modifies this
      ensures entries == old(entries) - {key}
    {
      entries := entries - {key};
    }
  }

  class Handler {
    const incrementalCache: IncrementalCache
    const original: OriginalTagCache
    const nextMode: NextModeTagCache
    const clock: Clock
    const mode: Mode

    constructor (incrementalCache: IncrementalCache, original: OriginalTagCache, nextMode: NextModeTagCache,
                 clock: Clock, mode: Mode)
      ensures this.incrementalCache == incrementalCache && this.original == original && this.nextMode == nextMode
      ensures this.clock == clock && this.mode == mode
    {
      this.incrementalCache, this.original, this.nextMode := incrementalCache, original, nextMode;
      this.clock, this.mode := clock, mode;
    }

    ghost predicate Valid() {
      incrementalCache.granularity >= 1
    }

    ghost function Persisted(): State
      reads incrementalCache, original, nextMode, clock
    {
      State(incrementalCache.entries, original.rows, nextMode.rows, clock.now)
    }

    /** One step of the persisted state: the tag cache of the other mode is not touched. */
    twostate predicate Stepped(op: Op)
      requires Valid()
      reads incrementalCache, original, nextMode, clock
    {
      && NextEntries(old(Persisted()), op, Persisted(), incrementalCache.granularity)
      && old(clock.now) <= clock.now
      && match mode
         case OriginalMode => NextRows(old(Persisted()), op, Persisted()) && nextMode.rows == old(nextMode.rows)
         case NextMode => NextStamps(old(Persisted()), op, Persisted()) && original.rows == old(original.rows)
    }

    /** The write concurrency of the tag cache in use is positive, so that every plan is sent whole. */
    predicate SendsAll() {
      match mode
      case OriginalMode => original.concurrency >= 1
      case NextMode => nextMode.concurrency >= 1
    }

    /** One step of the persisted state for any write concurrency. */
    twostate predicate SteppedPartly(op: Op)
      requires Valid()
      reads incrementalCache, original, nextMode, clock
    {
      && NextEntries(old(Persisted()), op, Persisted(), incrementalCache.granularity)
      && old(clock.now) <= clock.now
      && match mode
         case OriginalMode => NextRowsPartly(old(Persisted()), op, Persisted()) && nextMode.rows == old(nextMode.rows)
         case NextMode => NextStampsPartly(old(Persisted()), op, Persisted()) && original.rows == old(original.rows)
    }

    method CheckTagRevalidation(key: string, tags: seq<string>, lastModified: nat) returns (r: Option<bool>)
      ensures r.None? <==> mode.NextMode? && |tags| > MAX_TAGS_PER_QUERY
      ensures r.Some? ==> r.value == Refuses(Persisted(), mode, key, tags, lastModified)
    {
      if mode.NextMode? && |tags| == 0 {
        return Some(false);
      }
      if mode.NextMode? {
        r := nextMode.HasBeenRevalidated(tags, lastModified);
      } else {
        var last := original.GetLastModified(key, lastModified);
        r := Some(last == -1);
      }
    }

    method HandleGet(key: string, additionalTags: seq<string>) returns (response: GetResponse)
      ensures response == GetAnswer(Persisted(), mode, key, additionalTags)
    {
      var result := incrementalCache.Get(key);
      if result.None? {
        return NotFound;
      }
      var tags := additionalTags + TagsOf(result.value.value);
      var value := Stripped(result.value.value);
      var revalidated := CheckTagRevalidation(key, tags, result.value.lastModified);
      match revalidated
      case None => response := GetFailed;
      case Some(refused) => response := if refused then Revalidated else Hit(value, result.value.lastModified);
    }

    /** The tags of the entry its path does not have yet, as rows to write with the oldest stamp. */
    method TagsToWrite(key: string, derivedTags: seq<string>) returns (inputs: seq<WriteInput>)
      ensures forall input :: input in inputs ==> input.revalidatedAt == Some(1)
      ensures RowsOf(inputs) == SetRows(key, derivedTags) - original.rows.Keys
    {
      var storedTags := original.GetByPath(key);
      inputs := [];
      for i := 0 to |derivedTags|
        invariant forall input :: input in inputs ==> input.revalidatedAt == Some(1)
        invariant RowsOf(inputs) == SetRows(key, derivedTags[..i]) - original.rows.Keys
      {
        assert derivedTags[..i + 1] == derivedTags[..i] + [derivedTags[i]];
        assert SetRows(key, derivedTags[..i + 1]) == SetRows(key, derivedTags[..i]) + {Row(derivedTags[i], key)};
        if derivedTags[i] !in storedTags {
          var input := WriteInput(derivedTags[i], key, Some(1));
          assert RowsOf(inputs + [input]) == RowsOf(inputs) + {input.RowOf()};
          inputs := inputs + [input];
        }
      }
      assert derivedTags[..|derivedTags|] == derivedTags;
    }

    method HandleSet(key: string, additionalTags: seq<string>, payload: Option<CachedFile>) returns (ack: Ack)
      requires Valid()
      modifies incrementalCache, original, clock
      ensures ack == if payload.None? then BadRequest else Done
      ensures payload.None? ==> Persisted() == old(Persisted())
      ensures payload.Some? ==> SteppedPartly(Set(key, additionalTags, payload.value))
      ensures payload.Some? && SendsAll() ==> Stepped(Set(key, additionalTags, payload.value))
      ensures payload.Some? && SendsAll() && mode.OriginalMode? ==>
                forall tags, tag :: HasTagsHeader(payload.value, tags) && tag in tags ==> Row(tag, key) in original.rows
    {
      if payload.None? {
        return BadRequest;
      }
      var value := payload.value;
      ghost var time := incrementalCache.Put(key, value, clock);
      ack := Done;
      if mode.OriginalMode? {
        var derivedTags := additionalTags + TagsOf(value);
        ghost var wanted := SetRows(key, derivedTags);
        ghost var before, sent: set<Row> := original.rows, {};
        if |derivedTags| > 0 {
          var inputs := TagsToWrite(key, derivedTags);
          if |inputs| > 0 {
            var context := new RequestContext();
            ghost var start := clock.now;
            ghost var plan := WriteRowTags(inputs, context, original, clock);
            sent := CallWritesRows(before, inputs, {}, plan, original.concurrency, Some(1), start, clock.now);
            assert RowsOf(inputs) - RowsIn({}) == wanted - before.Keys;
          } else {
            assert wanted - before.Keys == {};
          }
        } else {
          assert wanted - before.Keys == {};
        }
        assert RowsWritten(before, original.rows, sent, Some(1), old(clock.now), clock.now);
        assert PartlyWritten(before, original.rows, wanted - before.Keys, Some(1), old(clock.now), clock.now);
        HeaderTagsAreWanted(key, additionalTags, value);
      }
    }

    method HandleDelete(key: string) returns (ack: Ack)
      requires Valid()
      modifies incrementalCache
      ensures ack == Done && Stepped(Delete(key))
    {
      incrementalCache.Remove(key);
      ack := Done;
    }

    /** The rows of `tag` as write requests without an explicit stamp. */
    method RowsToInsert(tag: string) returns (inputs: seq<WriteInput>)
      ensures forall input :: input in inputs ==> input.revalidatedAt == None
      ensures RowsOf(inputs) == set row | row in original.rows && row.tag == tag
    {
      var paths := original.GetByTag(tag);
      inputs := [];
      for i := 0 to |paths|
        invariant forall input :: input in inputs ==> input.revalidatedAt == None
        invariant RowsOf(inputs) == set path | path in paths[..i] :: Row(tag, path)
      {
        assert paths[..i + 1] == paths[..i] + [paths[i]];
        var input := WriteInput(tag, paths[i], None);
        assert RowsOf(inputs + [input]) == RowsOf(inputs) + {input.RowOf()};
        inputs := inputs + [input];
      }
      assert paths[..|paths|] == paths;
      forall row | row in original.rows && row.tag == tag ensures row in RowsOf(inputs) {
        assert row == Row(tag, row.path) && row.path in paths;
      }
    }

    /** Every row of every hard tag that `path` carries. */
    method HardRowsOf(path: string) returns (inputs: seq<WriteInput>)
      ensures forall input :: input in inputs ==> input.revalidatedAt == None
      ensures RowsOf(inputs) == set row | row in original.rows && !IsSoft(row.tag)
          && Row(row.tag, path) in original.rows
    {
      var tags := original.GetByPath(path);
      inputs := [];
      for i := 0 to |tags|
        invariant forall input :: input in inputs ==> input.revalidatedAt == None
        invariant RowsOf(inputs) == set row | row in original.rows && !IsSoft(row.tag) && row.tag in tags[..i]
      {
        assert tags[..i + 1] == tags[..i] + [tags[i]];
        if !IsSoft(tags[i]) {
          var more := RowsToInsert(tags[i]);
          assert RowsOf(inputs + more) == RowsOf(inputs) + RowsOf(more);
          inputs := inputs + more;
        }
      }
      assert tags[..|tags|] == tags;
    }

    /** `toInsert` of one revalidated tag: what the tag reaches. */
    method CollectRows(tag: string) returns (toInsert: seq<WriteInput>)
      ensures forall input :: input in toInsert ==> input.revalidatedAt == None
      ensures RowsOf(toInsert) == ReachedBy(original.rows.Keys, tag)
    {
      var paths := original.GetByTag(tag);
      toInsert := RowsToInsert(tag);
      ghost var own := RowsOf(toInsert);
      if IsSoft(tag) {
        for i := 0 to |paths|
          invariant forall input :: input in toInsert ==> input.revalidatedAt == None
          invariant RowsOf(toInsert) == own + set row | row in original.rows && !IsSoft(row.tag)
                                                  && exists k :: 0 <= k < i && Row(row.tag, paths[k]) in original.rows
        {
          var more := HardRowsOf(paths[i]);
          assert RowsOf(toInsert + more) == RowsOf(toInsert) + RowsOf(more);
          toInsert := toInsert + more;
        }
        forall row | row in original.rows && !IsSoft(row.tag)
          ensures Reaches(original.rows.Keys, tag, row) <==>
                  exists k :: 0 <= k < |paths| && Row(row.tag, paths[k]) in original.rows
        {
          if k :| 0 <= k < |paths| && Row(row.tag, paths[k]) in original.rows {
            assert paths[k] in paths;
            assert Row(tag, paths[k]) in original.rows.Keys;
          }
          if hop :| hop in original.rows.Keys && hop.tag == tag && Row(row.tag, hop.path) in original.rows {
            assert hop == Row(tag, hop.path) && hop.path in paths;
          }
        }
      }
    }

    /** One turn of the loop over the revalidated tags. */
    method RevalidateTag(tag: string, context: RequestContext) returns (ghost sent: set<Row>)
      modifies context, original, clock
      ensures old(clock.now) <= clock.now
      ensures RowsIn(context.writtenTags) == RowsIn(old(context.writtenTags)) + ReachedBy(old(original.rows).Keys, tag)
      ensures sent <= ReachedBy(old(original.rows).Keys, tag)
      ensures original.concurrency >= 1 ==>
                sent == ReachedBy(old(original.rows).Keys, tag) - RowsIn(old(context.writtenTags))
      ensures RowsWritten(old(original.rows), original.rows, sent, None, old(clock.now), clock.now)
    {
      ghost var written, rows, start := context.writtenTags, original.rows, clock.now;
      var toInsert := CollectRows(tag);
      RowsInAfter(written, toInsert);
      ghost var plan := WriteRowTags(toInsert, context, original, clock);
      sent := CallWritesRows(rows, toInsert, written, plan, original.concurrency, None, start, clock.now);
    }

    /** The loop over the revalidated tags in the original mode. */
    method RevalidateRows(tags: seq<string>, context: RequestContext) returns (ghost sent: set<Row>)
      requires context.writtenTags == {}
      modifies context, original, clock
      ensures old(clock.now) <= clock.now
      ensures sent <= Reached(old(original.rows).Keys, tags)
      ensures original.concurrency >= 1 ==> sent == Reached(old(original.rows).Keys, tags)
      ensures RowsWritten(old(original.rows), original.rows, sent, None, old(clock.now), clock.now)
    {
      sent := {};
      ghost var before, keys := original.rows, original.rows.Keys;
      assert Reached(keys, tags[..0]) == {};
      for i := 0 to |tags|
        invariant old(clock.now) <= clock.now
        invariant RowsIn(context.writtenTags) == Reached(keys, tags[..i])
        invariant sent <= Reached(keys, tags[..i])
        invariant original.concurrency >= 1 ==> sent == Reached(keys, tags[..i])
        invariant RowsWritten(before, original.rows, sent, None, old(clock.now), clock.now)
      {
        ghost var rows, middle := original.rows, clock.now;
        assert rows.Keys == keys;
        ghost var more := RevalidateTag(tags[i], context);
        WrittenTwice(before, rows, original.rows, sent, more, old(clock.now), middle, clock.now);
        sent := sent + more;
        ReachedSnoc(keys, tags[..i], tags[i]);
        assert tags[..i + 1] == tags[..i] + [tags[i]];
      }
      assert tags[..|tags|] == tags;
    }

    method HandleRevalidateTags(body: RevalidateBody) returns (ack: Ack)
      requires Valid()
      modifies original, nextMode, clock
      ensures ack == if body.TagList? && body.tags != [] then Done else BadRequest
      ensures ack.BadRequest? ==> Persisted() == old(Persisted())
      ensures ack.Done? ==> SteppedPartly(RevalidateTags(body.tags))
      ensures ack.Done? && SendsAll() ==> Stepped(RevalidateTags(body.tags))
    {
      if body.EmptyBody? || body.InvalidJson? {
        return BadRequest;
      }
      var tags := if body.TagList? then body.tags else [];
      if |tags| == 0 {
        return BadRequest;
      }
      ack := Done;
      var context := new RequestContext();
      if mode.NextMode? {
        ghost var plan := WriteTagNames(tags, context, nextMode, clock);
        ghost var sent := CallWritesNames(old(nextMode.rows), tags, {}, plan, nextMode.concurrency,
                                          old(clock.now), clock.now);
        assert NewTagRows(tags, {}) == TagRows(tags);
        assert PartlyWritten(old(nextMode.rows), nextMode.rows, TagRows(tags), None, old(clock.now), clock.now);
      } else {
        ghost var sent := RevalidateRows(tags, context);
        assert PartlyWritten(old(original.rows), original.rows, Reached(old(original.rows).Keys, tags),
                             None, old(clock.now), clock.now);
      }
    }
  }

  /** Rows written in two goes. */
  lemma WrittenTwice(before: Rows, middle: Rows, after: Rows, first: set<Row>, second: set<Row>, start: nat,
                     between: nat, end: nat)
    requires RowsWritten(before, middle, first, None, start, between)
    requires RowsWritten(middle, after, second, None, between, end) && start <= between <= end
    ensures RowsWritten(before, after, first + second, None, start, end)
  {
  }

  lemma HeaderTagsAreWanted(key: string, additionalTags: seq<string>, value: CachedFile)
    ensures forall tags, tag :: HasTagsHeader(value, tags) && tag in tags ==>
              Row(tag, key) in SetRows(key, additionalTags + TagsOf(value))
  {
    forall tags, tag | HasTagsHeader(value, tags) && tag in tags
      ensures Row(tag, key) in SetRows(key, additionalTags + TagsOf(value))
    {
      TagsOfHeader(value, tags);
      assert tag in additionalTags + TagsOf(value);
    }
  }

  lemma ReachedSnoc(keys: set<Row>, tags: seq<string>, tag: string)
    ensures Reached(keys, tags + [tag]) == Reached(keys, tags) + ReachedBy(keys, tag)
  {
    assert forall t :: t in tags + [tag] <==> t in tags || t == tag;
  }
}
