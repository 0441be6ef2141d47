/** Runs of the multi-tier cache with overlapping writes that show what it does not promise. */
module MultiTierWitnesses {
  import opened Wrappers
  import opened LruModel
  import opened MultiTier
  import opened MultiTierSteps
  import opened MultiTierOverlap

  /** One step, and what it adds to the log of "k". */
  ghost predicate Goes(s: System, log: Log, step: Step, s': System, log': Log, config: Config) {
    Enabled(s, step) && Apply(s, step, config) == s' && LogStep(s, step, "k", log) == log'
  }

  ghost predicate GoesAll(s: System, log: Log, steps: seq<Step>, s': System, log': Log, config: Config) {
    Run(s, steps, config) == Some(s') && LogRun(s, steps, "k", log, config) == log'
  }

  lemma GoesOn(s: System, log: Log, step: Step, middle: System, between: Log, steps: seq<Step>, s': System, log': Log,
               config: Config)
    requires Goes(s, log, step, middle, between, config) && GoesAll(middle, between, steps, s', log', config)
    ensures GoesAll(s, log, [step] + steps, s', log', config)
  {
    assert ([step] + steps)[1..] == steps;
  }

  lemma ReachedFrom(s: System, log: Log, steps: seq<Step>, s': System, log': Log, config: Config)
    requires Initial(s) && StartLog(s.remote, "k") == log && GoesAll(s, log, steps, s', log', config)
    ensures Reached(s, steps, "k", config, s', log')
  {
  }

  const OLD_SET := Write(0, OLD_FILE, 1)
  const NEW_SET := Write(1, NEW_FILE, 2)
  const OLD_OBJECT := S3Object(OLD_FILE, 3)
  const NEW_OBJECT := S3Object(NEW_FILE, 7)

  // ---- A third instance reads the key between the two S3 writes of overlapping sets

  function ReaderStep(n: nat): Step
    requires n < 11
  {
    match n
    case 0 => BeginSet(0, 0, "k", OLD_FILE, 1)
    case 1 => BeginSet(1, 1, "k", NEW_FILE, 2)
    case 2 => Advance(0, 3, 3)
    case 3 => BeginGet(2, 2, "k", 4)
    case 4 => Advance(2, 5, 0)
    case 5 => Advance(2, 6, 0)
    case 6 => Advance(1, 7, 7)
    case 7 => Advance(0, 8, 0)
    case 8 => Advance(1, 9, 0)
    case 9 => Advance(0, 10, 0)
    case 10 => Advance(1, 11, 0)
  }

  function Single(entry: LocalEntry): Lru<LocalEntry> {
    Lru(["k"], map["k" := entry])
  }

  /** Nothing cached yet but, perhaps, by the reader. */
  function Readers(now: nat, reader: Lru<LocalEntry>, remote: Remote, history: seq<Event>, pending: map<nat,
                   Pending>): System {
    System(now, [EmptyLru(), EmptyLru(), reader], remote, history, pending)
  }

  function ReaderState(n: nat): System
    requires n <= 11
  {
    var nothing: Lru<LocalEntry> := EmptyLru();
    var cached := Single(ObjectEntry(OLD_OBJECT));
    var empty, oldS3 := Remote(map[], map[]), Remote(map["k" := OLD_OBJECT], map[]);
    var newS3: map<string, S3Object> := map["k" := NEW_OBJECT];
    var first := [Event(3, "k", Some(OLD_FILE))];
    var both := first + [Event(7, "k", Some(NEW_FILE))];
    var toS3 := SetToS3(1, "k", NEW_FILE, 2);
    var toMeta0, toMeta1 := SetToMeta(0, "k", OLD_FILE, 1), SetToMeta(1, "k", NEW_FILE, 2);
    var toLocal0, toLocal1 := SetToLocal(0, "k", OLD_FILE, 1), SetToLocal(1, "k", NEW_FILE, 2);
    var done := Remote(newS3, map["k" := RevalidatedAt(2)]);
    match n
    case 0 => Readers(0, nothing, empty, [], map[])
    case 1 => Readers(1, nothing, empty, [], map[0 := SetToS3(0, "k", OLD_FILE, 1)])
    case 2 => Readers(2, nothing, empty, [], map[0 := SetToS3(0, "k", OLD_FILE, 1), 1 := toS3])
    case 3 => Readers(3, nothing, oldS3, first, map[0 := toMeta0, 1 := toS3])
    case 4 => Readers(4, nothing, oldS3, first, map[0 := toMeta0, 1 := toS3, 2 := GetFromS3(2, "k")])
    case 5 => Readers(5, nothing, oldS3, first, map[0 := toMeta0, 1 := toS3, 2 := GetToLocal(2, "k", OLD_OBJECT)])
    case 6 => Readers(6, cached, oldS3, first, map[0 := toMeta0, 1 := toS3])
    case 7 => Readers(7, cached, Remote(newS3, map[]), both, map[0 := toMeta0, 1 := toMeta1])
    case 8 => Readers(8, cached, Remote(newS3, map["k" := RevalidatedAt(1)]), both, map[0 := toLocal0, 1 := toMeta1])
    case 9 => Readers(9, cached, done, both, map[0 := toLocal0, 1 := toLocal1])
    case 10 => System(10, [Single(WriteEntry(OLD_SET)), nothing, cached], done, both, map[1 := toLocal1])
    case 11 => System(11, [Single(WriteEntry(OLD_SET)), Single(WriteEntry(NEW_SET)), cached], done, both, map[])
  }

  function ReaderLog(n: nat): Log
    requires n <= 11
  {
    var begun := if n < 1 then {} else if n < 2 then {OLD_SET} else {OLD_SET, NEW_SET};
    var stamped := if n < 8 then {} else if n < 9 then {OLD_SET} else {OLD_SET, NEW_SET};
    var objects := if n < 3 then {} else if n < 7 then {OLD_OBJECT} else {OLD_OBJECT, NEW_OBJECT};
    var s3 := if n < 3 then S3Before(None) else if n < 7 then S3Set(OLD_SET, OLD_OBJECT)
        else S3Set(NEW_SET, NEW_OBJECT);
    var row := if n < 8 then RowBefore(None) else if n < 9 then RowSet(OLD_SET) else RowSet(NEW_SET);
    Log(begun, stamped, objects, s3, row)
  }

  lemma ReaderRunBegins(n: nat, config: Config)
    requires n < 3
    ensures Goes(ReaderState(n), ReaderLog(n), ReaderStep(n), ReaderState(n + 1), ReaderLog(n + 1), config)
  {
  }

  lemma PutIntoEmpty(entry: LocalEntry, config: Config)
    ensures Put(EmptyLru(), "k", entry, config.maxSize) == Single(entry)
  {
  }

  lemma ReaderRunReads(n: nat, config: Config)
    requires 3 <= n < 5
    ensures Goes(ReaderState(n), ReaderLog(n), ReaderStep(n), ReaderState(n + 1), ReaderLog(n + 1), config)
  {
    var s := ReaderState(3);
    assert s.locals[2 := s.locals[2]] == s.locals;
  }

  lemma ReaderRunCaches(config: Config)
    ensures Goes(ReaderState(5), ReaderLog(5), ReaderStep(5), ReaderState(6), ReaderLog(6), config)
  {
    PutIntoEmpty(ObjectEntry(OLD_OBJECT), config);
    var s := ReaderState(5);
    assert s.locals[2 := Single(ObjectEntry(OLD_OBJECT))] == ReaderState(6).locals;
    assert s.pending - {2} == ReaderState(6).pending;
  }

  lemma ReaderRunWrites(n: nat, config: Config)
    requires 6 <= n < 9
    ensures Goes(ReaderState(n), ReaderLog(n), ReaderStep(n), ReaderState(n + 1), ReaderLog(n + 1), config)
  {
  }

  lemma ReaderRunEnds(config: Config)
    ensures Goes(ReaderState(9), ReaderLog(9), ReaderStep(9), ReaderState(10), ReaderLog(10), config)
  {
    PutIntoEmpty(WriteEntry(OLD_SET), config);
    var s := ReaderState(9);
    assert s.locals[0 := Single(WriteEntry(OLD_SET))] == ReaderState(10).locals;
    assert s.pending - {0} == ReaderState(10).pending;
  }

  lemma ReaderRunEndsTwice(config: Config)
    ensures Goes(ReaderState(10), ReaderLog(10), ReaderStep(10), ReaderState(11), ReaderLog(11), config)
  {
    PutIntoEmpty(WriteEntry(NEW_SET), config);
    var s := ReaderState(10);
    assert s.locals[1 := Single(WriteEntry(NEW_SET))] == ReaderState(11).locals;
    assert s.pending - {1} == ReaderState(11).pending;
  }

  lemma ReaderRunStep(n: nat, config: Config)
    requires n < 11
    ensures Goes(ReaderState(n), ReaderLog(n), ReaderStep(n), ReaderState(n + 1), ReaderLog(n + 1), config)
  {
    if n < 3 {
      ReaderRunBegins(n, config);
    } else if n < 5 {
      ReaderRunReads(n, config);
    } else if n == 5 {
      ReaderRunCaches(config);
    } else if n < 9 {
      ReaderRunWrites(n, config);
    } else if n == 9 {
      ReaderRunEnds(config);
    } else {
      ReaderRunEndsTwice(config);
    }
  }

  function ReaderSteps(n: nat): seq<Step>
    requires n <= 11
    decreases 11 - n
  {
    if n == 11 then [] else [ReaderStep(n)] + ReaderSteps(n + 1)
  }

  lemma {:induction false} ReaderRunFrom(n: nat, config: Config)
    requires n <= 11
    ensures GoesAll(ReaderState(n), ReaderLog(n), ReaderSteps(n), ReaderState(11), ReaderLog(11), config)
    decreases 11 - n
  {
    if n < 11 {
      ReaderRunStep(n, config);
      ReaderRunFrom(n + 1, config);
      GoesOn(ReaderState(n), ReaderLog(n), ReaderStep(n), ReaderState(n + 1), ReaderLog(n + 1), ReaderSteps(n + 1),
             ReaderState(11), ReaderLog(11), config);
    }
  }

  lemma ReaderStarts()
    ensures Initial(ReaderState(0)) && StartLog(ReaderState(0).remote, "k") == ReaderLog(0)
  {
  }

  lemma ReaderLogEnds()
    ensures var log := ReaderLog(11);
            LatestWonBoth(log) && DifferentValues(log) && log.stamped == {OLD_SET, NEW_SET}
  {
  }

  lemma ReaderEnd(config: Config)
    requires config.ttl <= 0
    ensures var end := ReaderState(11);
            && end.pending == map[] && |end.locals| == 3
            && Holds(end, "k", OLD_SET) && Holds(end, "k", NEW_SET)
            && !Agrees(end, "k", 2, end.now, config)
  {
    var end := ReaderState(11);
    assert end.locals[2].data["k"] == ObjectEntry(OLD_OBJECT);
    assert ValueOf(Lookup(end.locals[2], end.remote, "k", end.now, true, config).0) == Some(OLD_FILE);
    assert S3Value(end.remote, "k") == Some(NEW_FILE);
  }

  /**
   The latest set wins S3 and DynamoDB and both setting instances hold their entries, and still an instance that read
   the key in between goes on answering the old value: S3 dated what it read later than the latest set's timestamp.
   */
  lemma ReaderDisagrees(config: Config) returns (s: System, steps: seq<Step>, end: System, log: Log)
    requires config.ttl <= 0
    ensures Reached(s, steps, "k", config, end, log) && end.pending == map[] && |end.locals| == 3
    ensures LatestWonBoth(log) && DifferentValues(log) && forall w :: w in log.stamped ==> Holds(end, "k", w)
    ensures !Agrees(end, "k", 2, end.now, config)
  {
    s, steps, end, log := ReaderState(0), ReaderSteps(0), ReaderState(11), ReaderLog(11);
    ReaderRunFrom(0, config);
    ReaderStarts();
    ReachedFrom(s, ReaderLog(0), steps, end, log, config);
    ReaderEnd(config);
    ReaderLogEnds();
  }

  // ---- A set overlaps a delete

  function DeleteState(n: nat): System
    requires n <= 8
  {
    var nothing: Lru<LocalEntry> := EmptyLru();
    var set1 := [Event(2, "k", Some(OLD_FILE))];
    var both := set1 + [Event(3, "k", None)];
    var held: map<string, S3Object> := map["k" := S3Object(OLD_FILE, 2)];
    match n
    case 0 => System(0, [nothing, nothing], Remote(map[], map[]), [], map[])
    case 1 => System(1, [nothing, nothing], Remote(map[], map[]), [], map[0 := SetToS3(0, "k", OLD_FILE, 1)])
    case 2 => System(1, [nothing, nothing], Remote(map[], map[]), [],
                     map[0 := SetToS3(0, "k", OLD_FILE, 1), 1 := DeleteInS3(1, "k")])
    case 3 => System(2, [nothing, nothing], Remote(held, map[]), set1,
                     map[0 := SetToMeta(0, "k", OLD_FILE, 1), 1 := DeleteInS3(1, "k")])
    case 4 => System(3, [nothing, nothing], Remote(map[], map[]), both,
                     map[0 := SetToMeta(0, "k", OLD_FILE, 1), 1 := DeleteInMeta(1, "k")])
    case 5 => System(4, [nothing, nothing], Remote(map[], map["k" := DeletedMark]), both,
                     map[0 := SetToMeta(0, "k", OLD_FILE, 1), 1 := DeleteInLocal(1, "k")])
    case 6 => System(5, [nothing, nothing], Remote(map[], map["k" := RevalidatedAt(1)]), both,
                     map[0 := SetToLocal(0, "k", OLD_FILE, 1), 1 := DeleteInLocal(1, "k")])
    case 7 => System(6, [Single(WriteEntry(OLD_SET)), nothing], Remote(map[], map["k" := RevalidatedAt(1)]), both,
                     map[1 := DeleteInLocal(1, "k")])
    case 8 => System(7, [Single(WriteEntry(OLD_SET)), nothing], Remote(map[], map["k" := RevalidatedAt(1)]), both,
                     map[])
  }

  function DeleteStep(n: nat): Step
    requires n < 8
  {
    match n
    case 0 => BeginSet(0, 0, "k", OLD_FILE, 1)
    case 1 => BeginDelete(1, 1, "k")
    case 2 => Advance(0, 2, 2)
    case 3 => Advance(1, 3, 0)
    case 4 => Advance(1, 4, 0)
    case 5 => Advance(0, 5, 0)
    case 6 => Advance(0, 6, 0)
    case 7 => Advance(1, 7, 0)
  }

  function DeleteLog(n: nat): Log
    requires n <= 8
  {
    var item := S3Object(OLD_FILE, 2);
    Log(if n < 1 then {} else {OLD_SET}, if n < 6 then {} else {OLD_SET}, if n < 3 then {} else {item},
        if n < 3 then S3Before(None) else if n < 4 then S3Set(OLD_SET, item) else S3Deleted,
        if n < 5 then RowBefore(None) else if n < 6 then RowDeleted else RowSet(OLD_SET))
  }

  lemma DeleteRunBegins(n: nat, config: Config)
    requires n < 4
    ensures Goes(DeleteState(n), DeleteLog(n), DeleteStep(n), DeleteState(n + 1), DeleteLog(n + 1), config)
  {
  }

  lemma DeleteRunMarks(n: nat, config: Config)
    requires 4 <= n < 6
    ensures Goes(DeleteState(n), DeleteLog(n), DeleteStep(n), DeleteState(n + 1), DeleteLog(n + 1), config)
  {
  }

  lemma DeleteRunCaches(config: Config)
    ensures Goes(DeleteState(6), DeleteLog(6), DeleteStep(6), DeleteState(7), DeleteLog(7), config)
  {
    PutIntoEmpty(WriteEntry(OLD_SET), config);
    assert DeleteState(6).locals[0 := Single(WriteEntry(OLD_SET))] == DeleteState(7).locals;
    assert DeleteState(6).pending - {0} == DeleteState(7).pending;
  }

  lemma DeleteRunEnds(config: Config)
    ensures Goes(DeleteState(7), DeleteLog(7), DeleteStep(7), DeleteState(8), DeleteLog(8), config)
  {
    var nothing: Lru<LocalEntry> := EmptyLru();
    assert Removed(nothing, "k") == nothing;
    assert DeleteState(7).locals[1 := nothing] == DeleteState(8).locals;
    assert DeleteState(7).pending - {1} == DeleteState(8).pending;
  }

  function DeleteSteps(n: nat): seq<Step>
    requires n <= 8
    decreases 8 - n
  {
    if n == 8 then [] else [DeleteStep(n)] + DeleteSteps(n + 1)
  }

  lemma {:induction false} DeleteRunFrom(n: nat, config: Config)
    requires n <= 8
    ensures GoesAll(DeleteState(n), DeleteLog(n), DeleteSteps(n), DeleteState(8), DeleteLog(8), config)
    decreases 8 - n
  {
    if n < 8 {
      if n < 4 {
        DeleteRunBegins(n, config);
      } else if n < 6 {
        DeleteRunMarks(n, config);
      } else if n == 6 {
        DeleteRunCaches(config);
      } else {
        DeleteRunEnds(config);
      }
      DeleteRunFrom(n + 1, config);
      GoesOn(DeleteState(n), DeleteLog(n), DeleteStep(n), DeleteState(n + 1), DeleteLog(n + 1), DeleteSteps(n + 1),
             DeleteState(8), DeleteLog(8), config);
    }
  }

  lemma DeleteStarts()
    ensures Initial(DeleteState(0)) && StartLog(DeleteState(0).remote, "k") == DeleteLog(0)
  {
  }

  lemma DeleteEnd(config: Config)
    requires config.ttl <= 0
    ensures var end := DeleteState(8);
            && end.pending == map[] && |end.locals| == 2 && DeleteLog(8).s3.S3Deleted?
            && S3Value(end.remote, "k") == None && !Agrees(end, "k", 0, end.now, config)
  {
    var end := DeleteState(8);
    assert ValueOf(Lookup(end.locals[0], end.remote, "k", end.now, true, config).0) == Some(OLD_FILE);
  }

  /** The delete empties S3 after the set has filled it, the set stamps DynamoDB last, and its instance answers on. */
  lemma SetOutlivesDelete(config: Config) returns (s: System, steps: seq<Step>, end: System, log: Log)
    requires config.ttl <= 0
    ensures Reached(s, steps, "k", config, end, log) && end.pending == map[] && |end.locals| == 2
    ensures log.s3.S3Deleted? && S3Value(end.remote, "k") == None && !Agrees(end, "k", 0, end.now, config)
  {
    s, steps, end, log := DeleteState(0), DeleteSteps(0), DeleteState(8), DeleteLog(8);
    DeleteRunFrom(0, config);
    DeleteStarts();
    ReachedFrom(s, DeleteLog(0), steps, end, log, config);
    DeleteEnd(config);
  }
}
