/**
 Whole runs of sets, deletes and tag revalidations, with both tag caches fed by the same operations at the
 same times. Gets change nothing, so a run lists the writing operations and a get may be asked at any state.
 */
module TagRuns {
  import opened CacheTypes
  import opened Wrappers
  import opened TagTypes
  import opened TagCaches
  import opened CacheHandler

  datatype Trace = Trace(states: seq<State>, ops: seq<Op>)

  ghost predicate Next(s: State, op: Op, s': State, granularity: nat)
    requires granularity >= 1
  {
    && s.now <= s'.now
    && NextEntries(s, op, s', granularity)
    && NextRows(s, op, s')
    && NextStamps(s, op, s')
  }

  /** Nothing carries a time the clock has not reached. */
  ghost predicate InThePast(s: State) {
    && s.now >= 1
    && (forall key :: key in s.entries ==> s.entries[key].lastModified <= s.now)
    && (forall row :: row in s.rows ==> s.rows[row] <= s.now)
    && (forall row :: row in s.stamps ==> s.stamps[row] <= s.now)
  }

  ghost predicate StepAt(t: Trace, i: int, granularity: nat)
    requires granularity >= 1 && 0 <= i < |t.ops| < |t.states|
  {
    Next(t.states[i], t.ops[i], t.states[i + 1], granularity)
  }

  /** The tables may be filled beforehand, as the build does. */
  ghost predicate IsRun(t: Trace, granularity: nat) {
    && granularity >= 1
    && |t.states| == |t.ops| + 1
    && InThePast(t.states[0])
    && forall i :: 0 <= i < |t.ops| ==> StepAt(t, i, granularity)
  }

  lemma {:induction false} RunStaysInThePast(t: Trace, granularity: nat, j: int)
    requires IsRun(t, granularity) && 0 <= j < |t.states|
    ensures InThePast(t.states[j])
  {
    if j > 0 {
      RunStaysInThePast(t, granularity, j - 1);
      assert StepAt(t, j - 1, granularity);
    }
  }

  /** Over any run no row is lost and no stamp falls: a set in particular never lowers or erases one. */
  lemma {:induction false} StampsNeverFall(t: Trace, granularity: nat, i: int, j: int)
    requires IsRun(t, granularity) && 0 <= i <= j < |t.states|
    ensures forall row :: row in t.states[i].rows ==>
              row in t.states[j].rows && t.states[i].rows[row] <= t.states[j].rows[row]
    ensures forall row :: row in t.states[i].stamps ==>
              row in t.states[j].stamps && t.states[i].stamps[row] <= t.states[j].stamps[row]
    ensures t.states[i].now <= t.states[j].now
  {
    if i < j {
      StampsNeverFall(t, granularity, i, j - 1);
      RunStaysInThePast(t, granularity, j - 1);
      assert StepAt(t, j - 1, granularity);
    }
  }

  predicate Writes(op: Op, key: string) {
    (op.Set? || op.Delete?) && op.key == key
  }

  /** Operation `i` is the last one before state `j` that wrote `key`, and it was a set. */
  ghost predicate LastSet(t: Trace, i: int, j: int, key: string) {
    && 0 <= i < j <= |t.ops|
    && t.ops[i].Set? && t.ops[i].key == key
    && forall k :: i < k < j ==> !Writes(t.ops[k], key)
  }

  /** Operation `k` revalidates tags that reach a row of `key`, as the rows stand when it runs. */
  ghost predicate Touches(t: Trace, k: int, key: string)
    requires 0 <= k < |t.ops| < |t.states|
  {
    StampsRowOf(t.states[k], t.ops[k], key)
  }

  ghost predicate StampsRowOf(s: State, op: Op, key: string) {
    op.RevalidateTags? && exists row :: row in Reached(s.rows.Keys, op.tags) && row.path == key
  }

  ghost predicate TouchedBetween(t: Trace, i: int, j: int, key: string)
    requires 0 <= i < j <= |t.ops| < |t.states|
  {
    exists k :: i < k < j && Touches(t, k, key)
  }

  lemma {:induction false} LastSetEntry(t: Trace, granularity: nat, i: int, j: int, key: string)
    requires IsRun(t, granularity) && LastSet(t, i, j, key)
    ensures key in t.states[i + 1].entries && key in t.states[j].entries
    ensures t.states[j].entries[key] == t.states[i + 1].entries[key]
    ensures t.states[j].entries[key].value == t.ops[i].value
    ensures t.states[j].entries[key].lastModified <= t.states[i + 1].now
    ensures granularity == 1 ==> t.states[i].now < t.states[j].entries[key].lastModified
  {
    assert StepAt(t, j - 1, granularity);
    if j > i + 1 {
      LastSetEntry(t, granularity, i, j - 1, key);
    }
  }

  ghost predicate RefusedByRows(s: State, key: string)
    requires key in s.entries
  {
    StampedAfter(s.rows, key, s.entries[key].lastModified)
  }

  ghost predicate RefusedByStamps(s: State, key: string, tags: seq<string>)
    requires key in s.entries
  {
    SomeTagStampedAfter(s.stamps, tags, s.entries[key].lastModified)
  }

  /**
   Original mode, exactly: an entry is refused when it was already refused right after its set, or when a
   later revalidation reached one of its rows. No other operation matters, whatever the store's granularity.
   */
  lemma {:induction false} RefusedExactlyWhenTouched(t: Trace, granularity: nat, i: int, j: int, key: string)
    requires IsRun(t, granularity) && LastSet(t, i, j, key)
    ensures key in t.states[i + 1].entries && key in t.states[j].entries
    ensures RefusedByRows(t.states[j], key) <==>
            RefusedByRows(t.states[i + 1], key) || TouchedBetween(t, i, j, key)
  {
    LastSetEntry(t, granularity, i, j, key);
    LastSetEntry(t, granularity, i, i + 1, key);
    if j > i + 1 {
      var s, s', op := t.states[j - 1], t.states[j], t.ops[j - 1];
      assert StepAt(t, j - 1, granularity);
      RefusedExactlyWhenTouched(t, granularity, i, j - 1, key);
      RunStaysInThePast(t, granularity, j - 1);
      StepRefuses(s, op, s', granularity, key);
      assert TouchedBetween(t, i, j, key) <==> TouchedBetween(t, i, j - 1, key) || Touches(t, j - 1, key);
    } else {
      assert !TouchedBetween(t, i, j, key);
    }
  }

  /** One step that leaves the entry alone refuses it anew exactly when it stamps one of its rows. */
  lemma StepRefuses(s: State, op: Op, s': State, granularity: nat, key: string)
    requires granularity >= 1 && Next(s, op, s', granularity) && InThePast(s)
    requires key in s.entries && !Writes(op, key)
    ensures key in s'.entries && s'.entries[key] == s.entries[key]
    ensures RefusedByRows(s', key) <==> RefusedByRows(s, key) || StampsRowOf(s, op, key)
  {
    var lastModified := s.entries[key].lastModified;
    if op.RevalidateTags? {
      var reached := Reached(s.rows.Keys, op.tags);
      if row :| row in s.rows && row.path == key && s.rows[row] > lastModified {
        assert row in s'.rows && s'.rows[row] >= s.rows[row];
      }
      if row :| row in reached && row.path == key {
        assert row in s'.rows && s'.rows[row] > s.now >= lastModified;
      }
      if row :| row in s'.rows && row.path == key && s'.rows[row] > lastModified {
        assert row in s.rows;
      }
    } else if op.Set? {
      assert op.key != key;
      forall row: Row | row.path == key
        ensures row in s'.rows <==> row in s.rows
        ensures row in s.rows ==> s'.rows[row] == s.rows[row]
      {
      }
    }
  }

  /** With a store that reports exact times a set is never refused by what came before it. */
  lemma FreshSetIsServed(t: Trace, i: int, key: string, tags: seq<string>)
    requires IsRun(t, 1) && 0 <= i < |t.ops| && t.ops[i].Set? && t.ops[i].key == key
    ensures key in t.states[i + 1].entries
    ensures !RefusedByRows(t.states[i + 1], key)
    ensures !RefusedByStamps(t.states[i + 1], key, tags)
  {
    var s, s' := t.states[i], t.states[i + 1];
    assert StepAt(t, i, 1);
    LastSetEntry(t, 1, i, i + 1, key);
    RunStaysInThePast(t, 1, i);
    assert forall row :: row in s'.rows ==> s'.rows[row] <= s.now;
    assert forall row :: row in s'.stamps ==> s'.stamps[row] <= s.now;
  }

  /**
   Original mode over every run, exact times: a get of a key answers its stored value, tags header removed,
   until a revalidation after the last set reaches a row of the key, and from then on refuses it.
   */
  lemma ServedUntilTouched(t: Trace, i: int, j: int, key: string, additionalTags: seq<string>)
    requires IsRun(t, 1) && LastSet(t, i, j, key)
    ensures key in t.states[j].entries
    ensures GetAnswer(t.states[j], OriginalMode, key, additionalTags) ==
            if TouchedBetween(t, i, j, key) then Revalidated
            else Hit(Stripped(t.ops[i].value), t.states[j].entries[key].lastModified)
  {
    LastSetEntry(t, 1, i, j, key);
    RefusedExactlyWhenTouched(t, 1, i, j, key);
    FreshSetIsServed(t, i, key, []);
  }

  ghost predicate Names(op: Op, tags: seq<string>) {
    op.RevalidateTags? && exists tag :: tag in tags && tag in op.tags
  }

  ghost predicate NamedBetween(t: Trace, i: int, j: int, tags: seq<string>)
    requires 0 <= i < j <= |t.ops|
  {
    exists k :: i < k < j && Names(t.ops[k], tags)
  }

  /** nextMode, exactly: refused right after the set already, or one of the tags was revalidated since. */
  lemma {:induction false} RefusedExactlyWhenNamed(t: Trace, granularity: nat, i: int, j: int, key: string,
                                                   tags: seq<string>)
    requires IsRun(t, granularity) && LastSet(t, i, j, key)
    ensures key in t.states[i + 1].entries && key in t.states[j].entries
    ensures RefusedByStamps(t.states[j], key, tags) <==>
            RefusedByStamps(t.states[i + 1], key, tags) || NamedBetween(t, i, j, tags)
  {
    LastSetEntry(t, granularity, i, j, key);
    LastSetEntry(t, granularity, i, i + 1, key);
    if j > i + 1 {
      var s, s', op := t.states[j - 1], t.states[j], t.ops[j - 1];
      assert StepAt(t, j - 1, granularity);
      RefusedExactlyWhenNamed(t, granularity, i, j - 1, key, tags);
      RunStaysInThePast(t, granularity, j - 1);
      StepRefusesByName(s, op, s', granularity, key, tags);
      assert NamedBetween(t, i, j, tags) <==> NamedBetween(t, i, j - 1, tags) || Names(op, tags);
    }
  }

  /**
   The nextMode over every run, exact times: a get is a hit until one of its tags is revalidated after the last set,
   and refused from then on; more tags than DynamoDB can be asked for make it fail.
   */
  lemma ServedUntilNamed(t: Trace, i: int, j: int, key: string, additionalTags: seq<string>)
    requires IsRun(t, 1) && LastSet(t, i, j, key)
    ensures key in t.states[j].entries
    ensures var tags := additionalTags + TagsOf(t.ops[i].value);
            GetAnswer(t.states[j], NextMode, key, additionalTags) ==
            if |tags| > 100 then GetFailed
            else if NamedBetween(t, i, j, tags) then Revalidated
            else Hit(Stripped(t.ops[i].value), t.states[j].entries[key].lastModified)
  {
    var tags := additionalTags + TagsOf(t.ops[i].value);
    LastSetEntry(t, 1, i, j, key);
    RefusedExactlyWhenNamed(t, 1, i, j, key, tags);
    FreshSetIsServed(t, i, key, tags);
  }

  lemma StepRefusesByName(s: State, op: Op, s': State, granularity: nat, key: string, tags: seq<string>)
    requires granularity >= 1 && Next(s, op, s', granularity) && InThePast(s)
    requires key in s.entries && !Writes(op, key)
    ensures key in s'.entries && s'.entries[key] == s.entries[key]
    ensures RefusedByStamps(s', key, tags) <==> RefusedByStamps(s, key, tags) || Names(op, tags)
  {
    var lastModified := s.entries[key].lastModified;
    if op.RevalidateTags? {
      forall tag
        ensures TagRow(tag) in TagRows(op.tags) <==> tag in op.tags
      {
      }
      if tag :| tag in tags && tag in op.tags {
        assert s'.stamps[TagRow(tag)] > s.now >= lastModified;
      }
      if tag :| tag in tags && TagRow(tag) in s.stamps && s.stamps[TagRow(tag)] > lastModified {
        assert TagRow(tag) in s'.stamps && s'.stamps[TagRow(tag)] >= s.stamps[TagRow(tag)];
      }
    }
  }

  /** Every tag of a get was given to, or is carried by, the entry's last set. */
  ghost predicate TagsOfSet(op: Op, tags: seq<string>)
    requires op.Set?
  {
    forall tag :: tag in tags ==> tag in op.additionalTags + TagsOf(op.value)
  }

  lemma {:induction false} RowStays(t: Trace, granularity: nat, i: int, j: int, row: Row)
    requires IsRun(t, granularity) && 0 <= i <= j < |t.states| && row in t.states[i].rows
    ensures row in t.states[j].rows
  {
    if i < j {
      RowStays(t, granularity, i, j - 1, row);
      assert StepAt(t, j - 1, granularity);
    }
  }

  lemma SetAddsRow(t: Trace, granularity: nat, i: int, tag: string)
    requires IsRun(t, granularity) && 0 <= i < |t.ops| && t.ops[i].Set?
    requires tag in t.ops[i].additionalTags + TagsOf(t.ops[i].value)
    ensures Row(tag, t.ops[i].key) in t.states[i + 1].rows
  {
    assert StepAt(t, i, granularity);
    assert Row(tag, t.ops[i].key) in SetRows(t.ops[i].key, t.ops[i].additionalTags + TagsOf(t.ops[i].value));
  }

  /** A revalidation that names a tag of the entry reaches, in the original mode, a row of the entry. */
  lemma NamedIsTouched(t: Trace, granularity: nat, i: int, j: int, k: int, key: string, tags: seq<string>)
    requires IsRun(t, granularity) && LastSet(t, i, j, key) && i < k < j
    requires TagsOfSet(t.ops[i], tags) && Names(t.ops[k], tags)
    ensures Touches(t, k, key)
  {
    var tag :| tag in tags && tag in t.ops[k].tags;
    var row := Row(tag, key);
    SetAddsRow(t, granularity, i, tag);
    RowStays(t, granularity, i + 1, k, row);
    assert Reaches(t.states[k].rows.Keys, tag, row);
  }

  /** The rows of the key before a set, or a missing one it adds with stamp 1, refuse an entry of this date. */
  ghost predicate RowsRefuseSet(s: State, op: Op, lastModified: nat)
    requires op.Set?
  {
    || StampedAfter(s.rows, op.key, lastModified)
    || (lastModified == 0 && !(SetRows(op.key, op.additionalTags + TagsOf(op.value)) <= s.rows.Keys))
  }

  /** A set disagrees with itself: the store dates it before a stamp of its tags, and no row refuses it. */
  ghost predicate DatedBeforeAStamp(s: State, op: Op, tags: seq<string>, lastModified: nat)
    requires op.Set?
  {
    SomeTagStampedAfter(s.stamps, tags, lastModified) && !RowsRefuseSet(s, op, lastModified)
  }

  lemma SetRefuses(s: State, op: Op, s': State, granularity: nat)
    requires granularity >= 1 && op.Set? && Next(s, op, s', granularity)
    ensures op.key in s'.entries
    ensures RefusedByRows(s', op.key) <==> RowsRefuseSet(s, op, s'.entries[op.key].lastModified)
  {
    var lastModified := s'.entries[op.key].lastModified;
    var added := SetRows(op.key, op.additionalTags + TagsOf(op.value)) - s.rows.Keys;
    if row :| row in s.rows && row.path == op.key && s.rows[row] > lastModified {
      assert row in s'.rows && s'.rows[row] == s.rows[row];
    }
    if row :| lastModified == 0 && row in added {
      assert row in s'.rows && s'.rows[row] == 1;
    }
    if row :| row in s'.rows && row.path == op.key && s'.rows[row] > lastModified {
      assert row in added || row in s.rows;
    }
  }

  lemma SetRefusesByStamps(s: State, op: Op, s': State, granularity: nat, tags: seq<string>)
    requires granularity >= 1 && op.Set? && Next(s, op, s', granularity)
    ensures op.key in s'.entries
    ensures RefusedByStamps(s', op.key, tags) <==> SomeTagStampedAfter(s.stamps, tags, s'.entries[op.key].lastModified)
  {
  }

  /**
   The original mode for any granularity: a get is decided by the rows before the set, the date the store gave the
   entry, and later touches.
   */
  lemma OriginalAnswerExactly(t: Trace, granularity: nat, i: int, j: int, key: string, additionalTags: seq<string>)
    requires IsRun(t, granularity) && LastSet(t, i, j, key)
    ensures key in t.states[j].entries
    ensures var lastModified := t.states[j].entries[key].lastModified;
            GetAnswer(t.states[j], OriginalMode, key, additionalTags) ==
            if RowsRefuseSet(t.states[i], t.ops[i], lastModified) || TouchedBetween(t, i, j, key) then Revalidated
            else Hit(Stripped(t.ops[i].value), lastModified)
  {
    LastSetEntry(t, granularity, i, j, key);
    RefusedExactlyWhenTouched(t, granularity, i, j, key);
    assert StepAt(t, i, granularity);
    SetRefuses(t.states[i], t.ops[i], t.states[i + 1], granularity);
  }

  /** The nextMode for any granularity: the stamps before the set, the date, and the tags revalidated since. */
  lemma NextModeAnswerExactly(t: Trace, granularity: nat, i: int, j: int, key: string, additionalTags: seq<string>)
    requires IsRun(t, granularity) && LastSet(t, i, j, key)
    ensures key in t.states[j].entries
    ensures var tags := additionalTags + TagsOf(t.ops[i].value);
            var lastModified := t.states[j].entries[key].lastModified;
            GetAnswer(t.states[j], NextMode, key, additionalTags) ==
            if |tags| > MAX_TAGS_PER_QUERY then GetFailed
            else if SomeTagStampedAfter(t.states[i].stamps, tags, lastModified) || NamedBetween(t, i, j, tags)
                then Revalidated
            else Hit(Stripped(t.ops[i].value), lastModified)
  {
    var tags := additionalTags + TagsOf(t.ops[i].value);
    LastSetEntry(t, granularity, i, j, key);
    RefusedExactlyWhenNamed(t, granularity, i, j, key, tags);
    assert StepAt(t, i, granularity);
    SetRefusesByStamps(t.states[i], t.ops[i], t.states[i + 1], granularity, tags);
  }

  /** When the modes disagree right after a set, for any granularity of the store. */
  lemma ModesDisagreeAfterSet(t: Trace, granularity: nat, i: int, tags: seq<string>)
    requires IsRun(t, granularity) && 0 <= i < |t.ops| && t.ops[i].Set?
    ensures t.ops[i].key in t.states[i + 1].entries
    ensures && RefusedByStamps(t.states[i + 1], t.ops[i].key, tags)
            && !RefusedByRows(t.states[i + 1], t.ops[i].key)
            <==> DatedBeforeAStamp(t.states[i], t.ops[i], tags, t.states[i + 1].entries[t.ops[i].key].lastModified)
  {
    assert StepAt(t, i, granularity);
    SetRefuses(t.states[i], t.ops[i], t.states[i + 1], granularity);
  }

  /**
   Two modes side by side, for any granularity: the nextMode refuses while the original mode serves exactly when the
   store dated the entry before a stamp its tags had at the set, no row of the key had one, and nothing has touched
   the entry since. Later operations never open the gap.
   */
  lemma ModesDisagreeOnlyFromTheSet(t: Trace, granularity: nat, i: int, j: int, key: string, tags: seq<string>)
    requires IsRun(t, granularity) && LastSet(t, i, j, key) && TagsOfSet(t.ops[i], tags)
    ensures key in t.states[j].entries
    ensures RefusedByStamps(t.states[j], key, tags) && !RefusedByRows(t.states[j], key) <==>
            && DatedBeforeAStamp(t.states[i], t.ops[i], tags, t.states[j].entries[key].lastModified)
            && !TouchedBetween(t, i, j, key)
  {
    LastSetEntry(t, granularity, i, j, key);
    RefusedExactlyWhenNamed(t, granularity, i, j, key, tags);
    RefusedExactlyWhenTouched(t, granularity, i, j, key);
    ModesDisagreeAfterSet(t, granularity, i, tags);
    if k :| i < k < j && Names(t.ops[k], tags) {
      NamedIsTouched(t, granularity, i, j, k, key, tags);
    }
  }

  /**
   Exact times, for tags of a get that may never have been given to a set: the nextMode refuses what the original
   mode serves exactly when one of the tags was revalidated since the set but no revalidation reached a row.
   */
  lemma ModesDisagreeExactly(t: Trace, i: int, j: int, key: string, additionalTags: seq<string>)
    requires IsRun(t, 1) && LastSet(t, i, j, key)
    requires |additionalTags + TagsOf(t.ops[i].value)| <= MAX_TAGS_PER_QUERY
    ensures && GetAnswer(t.states[j], NextMode, key, additionalTags).Revalidated?
            && GetAnswer(t.states[j], OriginalMode, key, additionalTags).Hit?
            <==> NamedBetween(t, i, j, additionalTags + TagsOf(t.ops[i].value)) && !TouchedBetween(t, i, j, key)
  {
    LastSetEntry(t, 1, i, j, key);
    var tags := additionalTags + TagsOf(t.ops[i].value);
    FreshSetIsServed(t, i, key, tags);
    RefusedExactlyWhenNamed(t, 1, i, j, key, tags);
    RefusedExactlyWhenTouched(t, 1, i, j, key);
  }

  /** With exact times the original mode is never laxer: what the nextMode refuses, it refuses too. */
  lemma OriginalIsNeverLaxer(t: Trace, i: int, j: int, key: string, additionalTags: seq<string>)
    requires IsRun(t, 1) && LastSet(t, i, j, key) && TagsOfSet(t.ops[i], additionalTags)
    ensures GetAnswer(t.states[j], NextMode, key, additionalTags).Revalidated? ==>
            GetAnswer(t.states[j], OriginalMode, key, additionalTags).Revalidated?
  {
    LastSetEntry(t, 1, i, j, key);
    RunStaysInThePast(t, 1, i);
    ModesDisagreeOnlyFromTheSet(t, 1, i, j, key, additionalTags + TagsOf(t.ops[i].value));
  }

  // ---- The same in terms of headers, rows and paths only

  /**
   The answer of a get, from the table: in the original mode the entry is refused by a row of its path that is stamped
   after the entry's date, in the nextMode by such a stamp of one of the tags asked for.
   */
  lemma GetAnswerMeans(s: State, mode: Mode, key: string, additionalTags: seq<string>)
    requires key in s.entries
    ensures var date, tags := s.entries[key].lastModified, additionalTags + TagsOf(s.entries[key].value);
            var answer := GetAnswer(s, mode, key, additionalTags);
            && (answer.GetFailed? <==> mode.NextMode? && |tags| > 100)
            && (mode.OriginalMode? ==>
                  (answer.Revalidated? <==> exists tag :: Row(tag, key) in s.rows && s.rows[Row(tag, key)] > date))
            && (mode.NextMode? && |tags| <= 100 ==>
                  (answer.Revalidated? <==>
                   exists tag :: tag in tags && Row(tag, tag) in s.stamps && s.stamps[Row(tag, tag)] > date))
            && (!answer.GetFailed? && !answer.Revalidated? ==> answer == Hit(Stripped(s.entries[key].value), date))
  {
    var date, tags := s.entries[key].lastModified, additionalTags + TagsOf(s.entries[key].value);
    if row :| row in s.rows && row.path == key && s.rows[row] > date {
      assert row == Row(row.tag, key);
    }
    if tag :| tag in tags && Row(tag, tag) in s.stamps && s.stamps[Row(tag, tag)] > date {
      assert TagRow(tag) in s.stamps;
    }
    if tag :| tag in tags && TagRow(tag) in s.stamps && s.stamps[TagRow(tag)] > date {
      assert Row(tag, tag) in s.stamps;
    }
  }

  /** After a set of an entry with these header tags each of them has its row, and keeps it. */
  lemma HeaderTagHasRow(t: Trace, granularity: nat, i: int, j: int, tags: seq<string>, tag: string)
    requires IsRun(t, granularity) && 0 <= i < j < |t.states| && t.ops[i].Set?
    requires HasTagsHeader(t.ops[i].value, tags) && tag in tags
    ensures Row(tag, t.ops[i].key) in t.states[j].rows
  {
    TagsOfHeader(t.ops[i].value, tags);
    SetAddsRow(t, granularity, i, tag);
    RowStays(t, granularity, i + 1, j, Row(tag, t.ops[i].key));
  }

  /** A later revalidation of any one of its header tags makes every get of the entry be refused, in both modes. */
  lemma HeaderTagRefuses(t: Trace, granularity: nat, i: int, k: int, j: int, key: string, tags: seq<string>,
                         tag: string,
                         additionalTags: seq<string>)
    requires IsRun(t, granularity) && LastSet(t, i, j, key) && i < k < j
    requires HasTagsHeader(t.ops[i].value, tags) && tag in tags
    requires t.ops[k].RevalidateTags? && tag in t.ops[k].tags
    ensures GetAnswer(t.states[j], OriginalMode, key, additionalTags).Revalidated?
    ensures |additionalTags| + |tags| <= 100 ==> GetAnswer(t.states[j], NextMode, key, additionalTags).Revalidated?
  {
    TagsOfHeader(t.ops[i].value, tags);
    var all := additionalTags + tags;
    assert tag in all && Names(t.ops[k], all) && Names(t.ops[k], tags);
    NamedIsTouched(t, granularity, i, j, k, key, tags);
    OriginalAnswerExactly(t, granularity, i, j, key, additionalTags);
    NextModeAnswerExactly(t, granularity, i, j, key, additionalTags);
  }

  /**
   Which keys a revalidation touches: those that carry the tag, and for a tag that begins with `_N_T_/` those that
   share a tag of the other kind with a path that carries it.
   */
  lemma TouchesExactly(t: Trace, k: int, key: string)
    requires 0 <= k < |t.ops| < |t.states|
    ensures Touches(t, k, key) <==>
            (t.ops[k].RevalidateTags? && exists tag :: tag in t.ops[k].tags && TouchesKey(t.states[k].rows, tag, key))
  {
    var rows := t.states[k].rows;
    if t.ops[k].RevalidateTags? {
      if tag :| tag in t.ops[k].tags && TouchesKey(rows, tag, key) {
        var row := if Row(tag, key) in rows then Row(tag, key) else TouchedRow(rows, tag, key);
        assert row in Reached(rows.Keys, t.ops[k].tags) && row.path == key;
      }
      if row :| row in Reached(rows.Keys, t.ops[k].tags) && row.path == key {
        var tag :| tag in t.ops[k].tags && Reaches(rows.Keys, tag, row);
        assert row == Row(row.tag, key);
        if row.tag != tag {
          var hop :| hop in rows.Keys && hop.tag == tag && Row(row.tag, hop.path) in rows.Keys;
          assert hop == Row(tag, hop.path);
          assert SharesHardTag(rows, tag, hop.path, row.tag, key);
        }
        assert TouchesKey(rows, tag, key);
      }
    }
  }

  predicate IsSoftTag(tag: string) {
    |tag| >= 6 && tag[..6] == "_N_T_/"
  }

  ghost predicate SharesHardTag(rows: Rows, soft: string, path: string, hard: string, key: string) {
    Row(soft, path) in rows && !IsSoftTag(hard) && Row(hard, path) in rows && Row(hard, key) in rows
  }

  ghost predicate TouchesKey(rows: Rows, tag: string, key: string) {
    || Row(tag, key) in rows
    || (IsSoftTag(tag) && exists path, hard :: SharesHardTag(rows, tag, path, hard, key))
  }

  ghost function TouchedRow(rows: Rows, tag: string, key: string): (row: Row)
    requires TouchesKey(rows, tag, key) && Row(tag, key) !in rows
    ensures row in rows && row.path == key && Reaches(rows.Keys, tag, row)
  {
    var path, hard :| SharesHardTag(rows, tag, path, hard, key);
    assert Row(tag, path) in rows.Keys;
    Row(hard, key)
  }

  /**
   A key whose last write was a delete is not found, in either mode; and it is found while its last write was a set.
   */
  lemma {:induction false} DeletedIsNotFound(t: Trace, granularity: nat, i: int, j: int, key: string, mode: Mode,
                                             additionalTags: seq<string>)
    requires IsRun(t, granularity) && 0 <= i < j < |t.states| && Writes(t.ops[i], key)
    requires forall k :: i < k < j ==> !Writes(t.ops[k], key)
    ensures GetAnswer(t.states[j], mode, key, additionalTags).NotFound? <==> t.ops[i].Delete?
    ensures key in t.states[j].entries <==> t.ops[i].Set?
  {
    assert StepAt(t, j - 1, granularity);
    if j > i + 1 {
      DeletedIsNotFound(t, granularity, i, j - 1, key, mode, additionalTags);
    }
  }

  const PLAIN_FILE := CachedFile(Route(""), None, Unset)

  lemma SoftTagReachesAll(soft: string, keys: set<Row>)
    requires IsSoft(soft) && keys == {Row(soft, "a"), Row("hard", "a"), Row("hard", "b")}
    ensures Reached(keys, [soft]) == keys
  {
    var hop := Row(soft, "a");
    assert hop in keys && Row("hard", hop.path) in keys;
    assert !IsSoft("hard");
    forall row | row in keys ensures Reaches(keys, soft, row) {
      if row.tag != soft { assert row.tag == "hard"; }
    }
    assert soft in [soft];
  }

  /** The run behind the next lemma: "a" has a soft and a hard tag, then "b" is set with the same hard tag. */
  function LaxerStates(soft: string): seq<State> {
    var rows := map[Row(soft, "a") := 1, Row("hard", "a") := 1];
    var entries := map["b" := Stored(PLAIN_FILE, 2)];
    [State(map[], rows, map[], 1),
     State(entries, rows[Row("hard", "b") := 1], map[], 2),
     State(entries, map[Row(soft, "a") := 3, Row("hard", "a") := 3, Row("hard", "b") := 3], map[TagRow(soft) := 3], 3)]
  }

  function LaxerTrace(soft: string): Trace {
    Trace(LaxerStates(soft), [Set("b", ["hard"], PLAIN_FILE), RevalidateTags([soft])])
  }

  lemma LaxerIsRun(soft: string)
    requires IsSoft(soft)
    ensures IsRun(LaxerTrace(soft), 1)
  {
    var t := LaxerTrace(soft);
    LaxerSetStep(soft);
    LaxerRevalidateStep(soft);
    assert StepAt(t, 0, 1) && StepAt(t, 1, 1);
  }

  lemma LaxerSetStep(soft: string)
    requires IsSoft(soft)
    ensures Next(LaxerStates(soft)[0], Set("b", ["hard"], PLAIN_FILE), LaxerStates(soft)[1], 1)
  {
    var s, s' := LaxerStates(soft)[0], LaxerStates(soft)[1];
    assert ["hard"] + TagsOf(PLAIN_FILE) == ["hard"];
    assert SetRows("b", ["hard"]) - s.rows.Keys == {Row("hard", "b")};
    assert s'.entries == s.entries["b" := Stored(PLAIN_FILE, RoundDown(2, 1))];
  }

  lemma LaxerRevalidateStep(soft: string)
    requires IsSoft(soft)
    ensures Next(LaxerStates(soft)[1], RevalidateTags([soft]), LaxerStates(soft)[2], 1)
  {
    var s, s' := LaxerStates(soft)[1], LaxerStates(soft)[2];
    SoftTagReachesAll(soft, s.rows.Keys);
    assert TagRows([soft]) == {TagRow(soft)};
  }

  /** The converse fails: a soft tag takes the hard tags of its paths along in the original mode only. */
  lemma NextModeCanBeLaxer(soft: string) returns (t: Trace)
    requires IsSoft(soft)
    ensures IsRun(t, 1) && LastSet(t, 0, 2, "b") && TagsOfSet(t.ops[0], ["hard"])
    ensures GetAnswer(t.states[2], OriginalMode, "b", ["hard"]).Revalidated?
    ensures GetAnswer(t.states[2], NextMode, "b", ["hard"]).Hit?
  {
    t := LaxerTrace(soft);
    LaxerIsRun(soft);
    LaxerAnswers(soft);
  }

  lemma LaxerAnswers(soft: string)
    requires IsSoft(soft)
    ensures GetAnswer(LaxerStates(soft)[2], OriginalMode, "b", ["hard"]).Revalidated?
    ensures GetAnswer(LaxerStates(soft)[2], NextMode, "b", ["hard"]).Hit?
  {
    var s := LaxerStates(soft)[2];
    assert ["hard"] + TagsOf(PLAIN_FILE) == ["hard"];
    assert Row("hard", "b") in s.rows && s.rows[Row("hard", "b")] > 2;
    assert !IsSoft("hard");
    assert TagRow("hard") !in s.stamps;
  }

  /**
   The bound needs exact times. A store that counts whole seconds dates an entry back to the start of its
   second; a tag revalidated earlier in that second refuses the entry in the nextMode, while the original mode,
   which had no row for the entry yet, serves it.
   */
  lemma WholeSecondsBreakTheBound() returns (t: Trace)
    ensures IsRun(t, 1000) && LastSet(t, 1, 2, "k") && TagsOfSet(t.ops[1], ["h"])
    ensures GetAnswer(t.states[2], NextMode, "k", ["h"]).Revalidated?
    ensures GetAnswer(t.states[2], OriginalMode, "k", ["h"]).Hit?
  {
    var op0, op1 := RevalidateTags(["h"]), Set("k", ["h"], PLAIN_FILE);
    var s0 := State(map[], map[], map[], 1400);
    var s1 := State(map[], map[], map[TagRow("h") := 1500], 1500);
    var s2 := State(map["k" := Stored(PLAIN_FILE, 1000)], map[Row("h", "k") := 1], s1.stamps, 1700);
    assert TagsOf(PLAIN_FILE) == [] && ["h"] + [] == ["h"];
    assert Reached(s0.rows.Keys, ["h"]) == {};
    assert "h" in ["h"];
    assert TagRows(["h"]) == {TagRow("h")};
    assert SetRows("k", ["h"]) - s1.rows.Keys == {Row("h", "k")};
    assert Next(s0, op0, s1, 1000);
    assert s2.entries == s1.entries["k" := Stored(PLAIN_FILE, RoundDown(1700, 1000))];
    assert Next(s1, op1, s2, 1000);
    t := Trace([s0, s1, s2], [op0, op1]);
    assert TagRow("h") in s2.stamps && s2.stamps[TagRow("h")] > 1000;
  }

  const REFUSED_ROW := Row("h", "k")

  /** An entry is revalidated and set again within one second of a store that counts whole seconds. */
  function RefusedStates(): seq<State> {
    var rows, stamps := map[REFUSED_ROW := 1500], map[TagRow("h") := 1500];
    [State(map[], map[REFUSED_ROW := 1], map[], 1400),
     State(map[], rows, stamps, 1500),
     State(map["k" := Stored(PLAIN_FILE, 1000)], rows, stamps, 1700)]
  }

  lemma RefusedRevalidateStep()
    ensures Next(RefusedStates()[0], RevalidateTags(["h"]), RefusedStates()[1], 1000)
  {
    var keys := RefusedStates()[0].rows.Keys;
    assert "h" in ["h"] && Reaches(keys, "h", REFUSED_ROW);
    assert Reached(keys, ["h"]) == {REFUSED_ROW};
    assert TagRows(["h"]) == {TagRow("h")};
  }

  lemma RefusedSetStep()
    ensures Next(RefusedStates()[1], Set("k", ["h"], PLAIN_FILE), RefusedStates()[2], 1000)
  {
    var s, s' := RefusedStates()[1], RefusedStates()[2];
    assert ["h"] + TagsOf(PLAIN_FILE) == ["h"];
    assert SetRows("k", ["h"]) - s.rows.Keys == {};
    assert s'.entries == s.entries["k" := Stored(PLAIN_FILE, RoundDown(1700, 1000))];
  }

  lemma RefusedAnswers()
    ensures GetAnswer(RefusedStates()[2], OriginalMode, "k", ["h"]).Revalidated?
    ensures GetAnswer(RefusedStates()[2], NextMode, "k", ["h"]).Revalidated?
  {
    var s := RefusedStates()[2];
    assert ["h"] + TagsOf(PLAIN_FILE) == ["h"] && "h" in ["h"];
    assert REFUSED_ROW in s.rows && s.rows[REFUSED_ROW] > 1000;
    assert TagRow("h") in s.stamps && s.stamps[TagRow("h")] > 1000;
  }

  /** A fresh set is refused in both modes, with nothing revalidated since. */
  lemma WholeSecondsRefuseAFreshSet() returns (t: Trace)
    ensures IsRun(t, 1000) && LastSet(t, 1, 2, "k") && t.ops[1] == Set("k", ["h"], PLAIN_FILE)
    ensures GetAnswer(t.states[2], OriginalMode, "k", ["h"]).Revalidated?
    ensures GetAnswer(t.states[2], NextMode, "k", ["h"]).Revalidated?
  {
    t := Trace(RefusedStates(), [RevalidateTags(["h"]), Set("k", ["h"], PLAIN_FILE)]);
    RefusedRevalidateStep();
    RefusedSetStep();
    assert StepAt(t, 0, 1000) && StepAt(t, 1, 1000);
    RefusedAnswers();
  }
}
