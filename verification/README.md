# OpenNext caches, queues and wire formats: a model with proofs

This project models four parts of OpenNext and proves what they promise over whole runs.

**Tag revalidation** (`AdapterUtil`, `TagTypes`, `DynamoBatch`, `TagCaches`, `CacheUtils`, `CacheHandler`, `TagRuns`).
The cache handler answers get, set, delete and revalidate-tags over an incremental store and a tag table. The table is
kept in one of two modes: *original* has a row per (tag, path), *nextMode* one stamp per tag. The handlers, both tag
caches, the chunked DynamoDB writes and the per-request de-duplication are methods with loops; each is tied to a
transition of the persisted state (`NextEntries`, `NextRows`, `NextStamps`) or to the answer it gives (`GetAnswer`).
`TagRuns` then reasons about all runs of these transitions: exactly when an entry is refused in either mode, that stamps
never fall, and how the two modes compare; and it says the same once more of header texts, rows and paths only.

**Multi-tier cache** (`LruModel`, `MultiTier`, `MultiTierSteps`, `MultiTierExclusive`, `MultiTierAnswers`,
`MultiTierOverlap`, `MultiTierWhole`, `MultiTierWitnesses`). Any number of instances keep a bounded LRU map in front of S3 and a DynamoDB
metadata row. `MultiTier` has whole operations. `MultiTierSteps` splits every operation into its single reads and
writes, lets them interleave and lets any of them be abandoned half way: a value returned without asking DynamoDB was
S3's value less than the time to live ago. The others stay on that step machine, with no time to live. If the writes of
a key do not overlap each other, a lookup equals a read of S3 whenever none is out (`MultiTierExclusive`), and whatever
an interleaved get answers was S3's value at some instant since it, or the write then out, began (`MultiTierAnswers`).
For all runs whatsoever `MultiTierOverlap` says exactly which instances answer what S3 does not hold. `MultiTierWhole` has
the whole operations case by case, with the dates they answer, and ties them to their uninterrupted single steps.

**Durable-object schedulers** (`Queue`, `QueueRuns`, `QueueFlight`, `QueueRetries`, `QueueHistory`, `QueueOutcomes`,
`QueueWitnesses`, `Purge`). The classes hold the stretches of code between two awaits and uninterrupted alarm runs. The other modules
interleave them with arriving messages, blocked callers, completions, alarms and restarts, and prove the cap, single
flight, the retry budget across restarts, crash recovery, when an alarm is set, soundness of the sync table, and that no
tag to purge is forgotten. `QueueOutcomes` says what happens in terms of statuses, times and messages only.
`QueueWitnesses` has runs that show what the queue does not promise.

**Printers and parsers** (`Decimal`, `WireHeaders`, `CacheWire`, `BinaryContent`, `NextCache`, `SetCookie`,
`DeploymentMapping`). The cache GET wire format and its parser, the conversion of Next.js values to stored files and
back, the joining and splitting of Set-Cookie lists, and the deployment mapping over all deploy histories.

`Wrappers` and `CacheTypes` hold the shared values.

## Where a promise does not hold

Ten expected properties are false of the code. Each has a lemma with a run or an input that breaks it, and a theorem
with the exact condition under which it holds.

- The original mode is never laxer than the nextMode only with a store that reports exact times
  (`OriginalIsNeverLaxer`). S3's last-modified header counts whole seconds; `WholeSecondsBreakTheBound` is a run in
  which the nextMode refuses an entry that the original mode serves. For any granularity such a disagreement exists
  exactly when the set was dated before a stamp its tags already had, no row of the key refused it, and nothing has
  touched the entry since (`ModesDisagreeOnlyFromTheSet`).
- Likewise a fresh set is served only with exact times: `WholeSecondsRefuseAFreshSet` is a run in which both modes
  refuse it. For any granularity a get is decided by the rows or stamps before the set, the date the store gave and what
  was revalidated since (`OriginalAnswerExactly`, `NextModeAnswerExactly`).
- Overlapping writes can leave an instance answering a value S3 does not hold, although DynamoDB was asked: one that set
  the key (`OverlappingSetsDisagree`), one that only read it, although the latest set won S3 and DynamoDB
  (`ReaderDisagrees`), or one whose set a delete overlapped (`SetOutlivesDelete`). Over every run, an instance agrees
  with S3 exactly when its entry is not stale, that is unless DynamoDB lets it be answered, or calls the key deleted, and
  S3 holds something else (`InstanceAgreesExactly`). After sets nothing can be stale when the set with the largest
  timestamp was the last to write both and no superseded object is dated at or after that timestamp; with different values
  only then (`NothingStaleAfterSetsExactly`; after a delete, `NothingStaleAfterDeleteExactly`). While the writes of a key
  do not overlap each other it cannot happen, however gets overlap (`LookupEqualsS3`).
- A caller of the queue that blocks on the cap is not checked again when it wakes, so one id can be out twice, counted
  once (`OneIdOutTwice`). Checking woken callers alone would not do: `WakesAloneDoNotDecide` is a run in which every
  woken caller finds its id not out, and the alarm then retries the id beside it. `SingleFlightExactly` has the guard of
  every kind of step: no id is ever out twice if and only if all of them are met. `AtMostOnceWithoutStaleWakes` is a
  condition on the wake-ups alone that is enough.
- Failed routes can be left without an alarm (`FailedRouteIsForgotten`). An alarm is set exactly when, since the alarm
  last fired, a failure was kept for another try or the object restarted with a row (`AlarmIsSetExactly`).
- A restart can bring back a route that is done, because its row stays in the table (`DoneRouteComesBack`). It brings
  back, besides the pending retries, exactly the routes that failed, were settled since, and have neither failed again
  nor been brought back before (`RestartBringsBackExactly`).
- A tag requested again while its own batch is being purged is deleted with that batch (`RequestDuringOwnBatchIsLost`).
  This happens exactly when the call that is out contains the tag and is not rate limited (`RequestIsLostExactly`).
- A requested tag need not be purged even so: the source also removes the tags of a call that failed
  (`FailedCallDropsTheTag`). A tag that was not out when it was requested, and is not requested again, is in exactly one
  of three places later: still in the table, purged by a later call, or dropped with a later call that failed
  (`FateOfRequest`).
- A page keeps none of its own headers, so in the nextMode no revalidation of a tag in them ever refuses it; the original
  mode does, and both modes do for every other kind of value (`OwnTagRefuses`).
- With a negative write concurrency from the environment `chunk` keeps a single command: of 26 items the last is not
  sent (`LastItemIsNotSent`). Everything is sent exactly when the concurrency is positive or one command is enough
  (`EverythingIsSentExactly`).

The model follows the code where it looks like a slip: the list behind `isBinaryContentType` has one glued entry,
`audio/wavaudio/webm`.

## Model

| member | source | states |
|---|---|---|
| AdapterUtil.Chunk | packages/core/src/adapters/util.ts:21-29 | for any size: a positive one gives chunks that flatten to the items in order, all but the last full, none empty; a negative one keeps the first item only, zero none |
| AdapterUtil.ChunkingUnique | packages/core/src/adapters/util.ts:21-29 | those conditions leave one chunking only, so they determine `chunk` |
| AdapterUtil.ChunkIndexIsLast | packages/core/src/adapters/util.ts:23-24 | the floor division addresses the last chunk while it has room and a new chunk otherwise |
| DynamoBatch.BatchWrite | packages/aws/src/overrides/tagCache/dynamodb.ts:121-146 | for any concurrency: commands of 1 to 25 items holding the items in order, no row twice, grouped by the concurrency, and the table after what is sent |
| DynamoBatch.EverythingIsSentExactly | packages/aws/src/overrides/tagCache/dynamodb.ts:126-142 | what is sent is the whole plan in order if and only if the concurrency is positive or a single command is enough |
| DynamoBatch.LastItemIsNotSent | packages/aws/src/overrides/tagCache/dynamodb.ts:126-142 | a plan of 26 items with concurrency -1, of which the first 25 are sent |
| DynamoBatch.AnyOrderOfPuts | packages/aws/src/overrides/tagCache/dynamodb.ts:138-142 | the order in which the commands of a group arrive cannot change the table |
| DynamoBatch.PutAllAt | packages/aws/src/overrides/tagCache/dynamodb.ts:126-136 | each put of a plan decides the stamp of its own row |
| DynamoBatch.PutAllElsewhere | packages/aws/src/overrides/tagCache/dynamodb.ts:126-136 | a row no put names keeps its stamp or its absence |
| TagCaches.PlanWritesRows | packages/aws/src/overrides/tagCache/dynamodb.ts:29-35 | a stamped plan changes exactly its rows, to the explicit stamp or to the time of the write |
| TagCaches.PlanWritesSomeRows | packages/aws/src/overrides/tagCache/dynamodb.ts:121-146 | for any concurrency only rows of the plan change, all of them exactly when the whole plan is sent |
| TagCaches.OriginalTagCache.GetByPath | packages/aws/src/overrides/tagCache/dynamodb.ts:39-65 | the tags of a path, each once: tag listed if and only if the row exists |
| TagCaches.OriginalTagCache.GetByTag | packages/aws/src/overrides/tagCache/dynamodb.ts:66-91 | the paths of a tag, each once: path listed if and only if the row exists |
| TagCaches.OriginalTagCache.GetLastModified | packages/aws/src/overrides/tagCache/dynamodb.ts:92-120 | -1 if and only if some row of the key is stamped later, else the given time |
| TagCaches.OriginalTagCache.WriteTags | packages/aws/src/overrides/tagCache/dynamodb.ts:121-146 | for any mix of stamps: each item is put with its stamp or a time of this call, in a write plan, and the table is the one after what is sent |
| TagCaches.NextModeTagCache.HasBeenRevalidated | packages/aws/src/overrides/tagCache/dynamodb-nextMode.ts:77-116 | refused above 100 tags, else true if and only if some tag is stamped later |
| TagCaches.NextModeTagCache.WriteTags | packages/aws/src/overrides/tagCache/dynamodb-nextMode.ts:117-149 | each tag is put with a time of this call, in a write plan, and the table is the one after what is sent |
| CacheUtils.RequestContext.SelectUnwritten | packages/core/src/utils/cache.ts:70-79 | the filter keeps the first writes of new keys and adds every key to the request's set |
| CacheUtils.FilterKeepsFirsts | packages/core/src/utils/cache.ts:70-79 | the filter equals the positional definition: first occurrence of a key not written before |
| CacheUtils.FirstUnwrittenKeys | packages/core/src/utils/cache.ts:70-79 | the kept keys are distinct and are exactly the requested keys not written before |
| CacheUtils.CallsOfOneRequest | packages/core/src/utils/cache.ts:61-86 | consecutive calls in one request write what one call on all their tags would |
| CacheUtils.WriteRowTags | packages/core/src/utils/cache.ts:61-86 | original mode: a write plan whose items are, in order, the first inputs of keys new to the request, and the table after it |
| CacheUtils.WriteTagNames | packages/core/src/utils/cache.ts:61-86 | nextMode: the same for the tags new to the request |
| CacheUtils.CallWritesRows | packages/core/src/utils/cache.ts:61-86 | a call whose inputs have one stamp, or none, changes only rows the request had not written, and all of them exactly when the whole plan is sent |
| CacheUtils.CallWritesNames | packages/core/src/utils/cache.ts:61-86 | a nextMode call stamps only tags the request had not written, and all of them exactly when the whole plan is sent |
| CacheUtils.RequestWritesFirsts | packages/core/src/utils/cache.ts:61-86 | the batches of all calls of a request together hold the first occurrences of the keys it had not written, in order, no row twice, 1 to 25 items each |
| CacheTypes.StrippedHasNoTags | packages/core/src/utils/cache.ts:37-49 | after the strip no readable tags header is left, a second strip changes nothing, all else is kept |
| CacheTypes.SplitCommasMeaning | packages/core/src/utils/cache.ts:43-43 | no piece of the split header holds a comma, and the pieces joined by commas give the header |
| CacheTypes.SplitCommasUnique | packages/core/src/utils/cache.ts:43-43 | those two conditions leave one list |
| CacheTypes.TagsOfHeader | packages/core/src/utils/cache.ts:37-49 | the tags of an entry whose header is the comma-join of comma-free tags are those tags |
| CacheHandler.Handler.CheckTagRevalidation | packages/core/src/adapters/cache-handler.ts:185-202 | refusal in both modes as a condition on the tag table |
| CacheHandler.Handler.HandleGet | packages/core/src/adapters/cache-handler.ts:111-183 | miss, refusal, hit with the stripped value, or failure above 100 tags, as a function of the persisted state |
| CacheHandler.Handler.TagsToWrite | packages/core/src/adapters/cache-handler.ts:263-273 | the tags to write are exactly the derived tags whose row is missing, with stamp 1 |
| CacheHandler.Handler.HandleSet | packages/core/src/adapters/cache-handler.ts:214-285 | stores the entry, adds only missing rows with stamp 1 (all of them with a positive write concurrency, so that each tag of a comma-joined header has its row), touches no existing stamp; a bad payload changes nothing |
| CacheHandler.Handler.HandleDelete | packages/core/src/adapters/cache-handler.ts:287-297 | removes the entry and leaves both tag tables alone |
| CacheHandler.RoundDownIsWhole | packages/core/src/adapters/cache-handler.ts:196-196 | a store that counts in units dates an entry to the last whole unit |
| CacheHandler.Handler.CollectRows | packages/core/src/adapters/cache-handler.ts:356-378 | the nested loops collect exactly the rows a tag reaches: its own and, for a soft tag, every row of every hard tag on its paths |
| CacheHandler.Handler.RevalidateTag | packages/core/src/adapters/cache-handler.ts:354-380 | one turn of the loop stamps only rows the tag reaches; with a positive write concurrency exactly those the request has not written |
| CacheHandler.Handler.RevalidateRows | packages/core/src/adapters/cache-handler.ts:354-400 | the whole loop stamps only rows the tags reach; with a positive write concurrency all of them |
| CacheHandler.Handler.HandleRevalidateTags | packages/core/src/adapters/cache-handler.ts:306-408 | adds and removes no row in the original mode, stamps only what the tags reach (the tags themselves in the nextMode); with a positive write concurrency all of it, losing none to the de-duplication; bad bodies change nothing |
| TagRuns.StampsNeverFall | packages/core/src/adapters/cache-handler.ts:214-408 | over any run no row is lost and no stamp gets smaller |
| TagRuns.LastSetEntry | packages/core/src/adapters/cache-handler.ts:240-240 | an entry is the one of its last set until it is written again |
| TagRuns.RefusedExactlyWhenTouched | packages/core/src/adapters/cache-handler.ts:149-176 | original mode, any granularity: refused if and only if refused right after the set or a later revalidation reached one of its rows |
| TagRuns.FreshSetIsServed | packages/core/src/adapters/cache-handler.ts:263-275 | with exact times no earlier stamp refuses a fresh set, in either mode |
| TagRuns.ServedUntilTouched | packages/core/src/adapters/cache-handler.ts:111-285 | original mode, every run: a get is a hit with the last value, tags stripped, until a revalidation after the set touches the key, and is refused from then on |
| TagRuns.OriginalAnswerExactly | packages/core/src/adapters/cache-handler.ts:111-285 | original mode, any granularity: a get is refused exactly when the rows before the set refuse an entry of the date the store gave, or a touch came since |
| TagRuns.RefusedExactlyWhenNamed | packages/aws/src/overrides/tagCache/dynamodb-nextMode.ts:77-149 | nextMode: refused if and only if refused right after the set or one of the tags was revalidated since |
| TagRuns.ServedUntilNamed | packages/core/src/adapters/cache-handler.ts:111-202 | nextMode, every run: a get is a hit with the last value, tags stripped, until one of its tags is revalidated after the set, and is refused from then on; it fails above 100 tags |
| TagRuns.NextModeAnswerExactly | packages/aws/src/overrides/tagCache/dynamodb-nextMode.ts:77-149 | nextMode, any granularity: the same from the stamps of its tags before the set and the tags revalidated since |
| TagRuns.NamedIsTouched | packages/core/src/adapters/cache-handler.ts:354-380 | a revalidation that names a tag of the entry reaches one of its rows |
| TagRuns.GetAnswerMeans | packages/core/src/adapters/cache-handler.ts:111-202 | refused exactly when a row of the path, in the nextMode a stamp of a tag asked for, is later than the date of the entry; failure above 100 tags; else a hit with that date |
| TagRuns.HeaderTagHasRow | packages/core/src/adapters/cache-handler.ts:248-273 | after a set each tag of a comma-joined header has its row, and keeps it |
| TagRuns.HeaderTagRefuses | packages/core/src/adapters/cache-handler.ts:149-176 | a later revalidation of any one tag of the header makes every get be refused, in both modes, for any granularity |
| TagRuns.TouchesExactly | packages/core/src/adapters/cache-handler.ts:354-380 | a revalidation touches exactly the keys that carry the tag and, for a tag that begins with `_N_T_/`, those that share another kind of tag with a path carrying it |
| TagRuns.DeletedIsNotFound | packages/core/src/adapters/cache-handler.ts:287-297 | in both modes a key is not found exactly when its last write was a delete |
| TagRuns.ModesDisagreeOnlyFromTheSet | packages/core/src/adapters/cache-handler.ts:185-202 | any granularity: nextMode refuses what original serves if and only if the set was dated before a stamp of its tags, no row of the key was stamped later, and nothing touched the entry since |
| TagRuns.ModesDisagreeAfterSet | packages/core/src/adapters/cache-handler.ts:240-275 | when the modes disagree right after a set, from the stamps and rows before it and the date the store gives |
| TagRuns.ModesDisagreeExactly | packages/core/src/adapters/cache-handler.ts:185-202 | the same with exact times for any tags of a get: one of them was revalidated since, and no row of the key was reached |
| TagRuns.OriginalIsNeverLaxer | packages/core/src/adapters/cache-handler.ts:185-202 | with exact times what the nextMode refuses the original mode refuses too |
| TagRuns.NextModeCanBeLaxer | packages/core/src/adapters/cache-handler.ts:363-378 | a run in which a soft tag makes the original mode refuse what the nextMode serves |
| TagRuns.WholeSecondsBreakTheBound | packages/core/src/adapters/cache-handler.ts:196-201 | a run with times in whole seconds in which the nextMode refuses what the original mode serves |
| TagRuns.WholeSecondsRefuseAFreshSet | packages/core/src/adapters/cache-handler.ts:196-201 | a run with times in whole seconds in which both modes refuse a fresh set |
| LruModel.LRUCache.Get | packages/core/src/utils/lru.ts:6-15 | returns the value and moves its key to the end of the order |
| LruModel.LRUCache.Set | packages/core/src/utils/lru.ts:17-25 | evicts the first key when full, keeps the place of a key that stays |
| LruModel.LRUCache.Delete | packages/core/src/utils/lru.ts:27-29 | removes the key and nothing else |
| LruModel.PutStaysBounded | packages/core/src/utils/lru.ts:17-25 | a set keeps at most max(1, maxSize) entries, holds the new value and alters no other one |
| LruModel.HoldsLatestValues | packages/core/src/utils/lru.ts:1-30 | over every run: bounded, and a key that is held has the value of its last set |
| LruModel.OrderIsRecency | packages/core/src/utils/lru.ts:6-25 | over every run the keys stand in the order in which they were last found or newly set |
| LruModel.LeastRecentIsEvicted | packages/core/src/utils/lru.ts:17-25 | a set evicts the key refreshed least recently, no other, and none while there is room |
| LruModel.FoundKeySurvives | packages/core/src/utils/lru.ts:6-25 | a key just found survives the next set of another, in a cache for two or more |
| MultiTier.MultiTierCache.Get | packages/aws/src/overrides/incrementalCache/multi-tier-ddb-s3.ts:50-105 | result and new local map are those of a lookup at some moment of the call, whether DynamoDB answers or not |
| MultiTier.MultiTierCache.Set | packages/aws/src/overrides/incrementalCache/multi-tier-ddb-s3.ts:110-128 | S3, metadata row and local map after a set whose timestamp lies within the call |
| MultiTier.MultiTierCache.Delete | packages/aws/src/overrides/incrementalCache/multi-tier-ddb-s3.ts:129-143 | S3, metadata row and local map after a delete |
| MultiTier.NextKeepsCoherent | packages/aws/src/overrides/incrementalCache/multi-tier-ddb-s3.ts:50-143 | every operation keeps: a local entry the metadata row allows has S3's value |
| MultiTier.GetEqualsS3 | packages/aws/src/overrides/incrementalCache/multi-tier-ddb-s3.ts:83-91 | whole operations one after the other, no time to live, any instance: a get gives what reading S3 gives; for overlapping gets see MultiTierExclusive.LookupEqualsS3 |
| MultiTierWhole.LookupMeans | packages/aws/src/overrides/incrementalCache/multi-tier-ddb-s3.ts:50-105 | case by case with dates: young entries whatever the stores hold, older ones when DynamoDB has no younger row, deleted, else S3 with its own date; and what is kept |
| MultiTierWhole.OwnSetIsAnswered | packages/aws/src/overrides/incrementalCache/multi-tier-ddb-s3.ts:110-128 | a get on the setting instance answers the value with the timestamp the set took |
| MultiTierWhole.SetIsSeenElsewhere | packages/aws/src/overrides/incrementalCache/multi-tier-ddb-s3.ts:64-105 | every other instance whose entry is not young answers the value as well |
| MultiTierWhole.DeleteIsSeen | packages/aws/src/overrides/incrementalCache/multi-tier-ddb-s3.ts:78-82 | after a delete an instance with an entry answers that it is deleted, one without that there is none |
| MultiTierWhole.GetUninterrupted | packages/aws/src/overrides/incrementalCache/multi-tier-ddb-s3.ts:50-105 | a get whose steps nothing interrupts answers, dates and keeps what the whole lookup does, whether DynamoDB answers or not |
| MultiTierWhole.SetUninterrupted | packages/aws/src/overrides/incrementalCache/multi-tier-ddb-s3.ts:110-128 | a set whose steps nothing interrupts does what the whole set does |
| MultiTierWhole.DeleteUninterrupted | packages/aws/src/overrides/incrementalCache/multi-tier-ddb-s3.ts:129-143 | and a delete |
| MultiTierWhole.AnswerIsAnEntry | packages/aws/src/overrides/incrementalCache/multi-tier-ddb-s3.ts:59-105 | over every run what an interleaved get finds is an entry some set stamped or an object S3 has held, with its date |
| MultiTierSteps.StepKeepsBacked | packages/aws/src/overrides/incrementalCache/multi-tier-ddb-s3.ts:107-128 | every single read, write, abandonment or restart keeps: each local entry was S3's value at or after its time |
| MultiTierSteps.EventHolds | packages/aws/src/overrides/incrementalCache/multi-tier-ddb-s3.ts:110-112 | a write is what S3 holds at its instant |
| MultiTierSteps.LocalValueIsRecent | packages/aws/src/overrides/incrementalCache/multi-tier-ddb-s3.ts:59-63 | bounded staleness under any overlap and abandonment: the value was S3's less than the time to live ago |
| MultiTierSteps.OverlappingSetsDisagree | packages/aws/src/overrides/incrementalCache/multi-tier-ddb-s3.ts:110-128 | a run of two overlapping sets after which an instance answers a value S3 does not hold |
| MultiTierExclusive.StepFits | packages/aws/src/overrides/incrementalCache/multi-tier-ddb-s3.ts:50-143 | every single step keeps: while a set with timestamp t is out, each entry of the key, also one in the hands of a get, is older than t or has the new value, and what DynamoDB lets be answered was S3's value before the write or is so now |
| MultiTierExclusive.LookupEqualsS3 | packages/aws/src/overrides/incrementalCache/multi-tier-ddb-s3.ts:50-143 | no time to live, writes of the key that neither overlap nor stop half way: whenever none is out a lookup on any instance gives what S3 holds, however gets overlap and DynamoDB reads fail |
| MultiTierAnswers.AnswerIsShown | packages/aws/src/overrides/incrementalCache/multi-tier-ddb-s3.ts:50-105 | the answer of an interleaved get, from the state in which it is given |
| MultiTierAnswers.EveryAnswerWasInS3 | packages/aws/src/overrides/incrementalCache/multi-tier-ddb-s3.ts:50-143 | no time to live, writes of the key that do not overlap each other: whatever an interleaved get answers was S3's value at some instant since it began, or since the write out then began |
| MultiTierOverlap.StepLogs | packages/aws/src/overrides/incrementalCache/multi-tier-ddb-s3.ts:50-143 | every step of every run keeps: each local entry of the key, and each on its way, is one that a set stamped or an object S3 has held |
| MultiTierOverlap.InstanceAgreesExactly | packages/aws/src/overrides/incrementalCache/multi-tier-ddb-s3.ts:59-91 | every run, whatever overlaps or is lost: an instance agrees with S3 exactly when it has no entry or one that is not stale; every entry is in the log |
| MultiTierOverlap.AllAgreeUnlessStale | packages/aws/src/overrides/incrementalCache/multi-tier-ddb-s3.ts:59-91 | all instances agree when nothing in the log is stale, and each that holds something stale disagrees |
| MultiTierOverlap.LookupFindsAnEntry | packages/aws/src/overrides/incrementalCache/multi-tier-ddb-s3.ts:59-105 | over every run and for any time to live, what a lookup finds is such an entry with its own date |
| MultiTierOverlap.NothingStaleAfterSetsExactly | packages/aws/src/overrides/incrementalCache/multi-tier-ddb-s3.ts:107-128 | nothing is stale when the latest set wrote S3 and DynamoDB last and no superseded object is dated at or after its timestamp; with different values exactly then |
| MultiTierOverlap.NothingStaleAfterDeleteExactly | packages/aws/src/overrides/incrementalCache/multi-tier-ddb-s3.ts:129-143 | with DynamoDB marked last nothing is stale exactly when S3 holds nothing or nothing was ever cached; a set that stamps DynamoDB after a delete emptied S3 is stale |
| MultiTierOverlap.OverlappingSetsAgreeExactly | packages/aws/src/overrides/incrementalCache/multi-tier-ddb-s3.ts:110-128 | readers included, all agree when the latest set won both and no superseded object is dated late; among setting instances that hold their different values, all agree exactly when it won both |
| MultiTierWitnesses.ReaderDisagrees | packages/aws/src/overrides/incrementalCache/multi-tier-ddb-s3.ts:97-104 | a run in which the latest set wins both and an instance that read the key in between answers the old value |
| MultiTierWitnesses.SetOutlivesDelete | packages/aws/src/overrides/incrementalCache/multi-tier-ddb-s3.ts:110-143 | a run of a set and a delete after which an instance answers what S3 no longer holds |
| Queue.DOQueueHandler.constructor | packages/cloudflare/src/api/durable-objects/queue.ts:41-73 | a new object has the restored state of the tables and alarm that were kept |
| Queue.DOQueueHandler.InitState | packages/cloudflare/src/api/durable-objects/queue.ts:266-286 | drops rows of other builds, restores the failed states and the alarm |
| Queue.DOQueueHandler.CheckSyncTable | packages/cloudflare/src/api/durable-objects/queue.ts:293-308 | compares a stored second with the rounded second of the message |
| Queue.DOQueueHandler.Revalidate | packages/cloudflare/src/api/durable-objects/queue.ts:75-111 | dropped, blocked or started, in the order of the source's checks |
| Queue.DOQueueHandler.WakeUp | packages/cloudflare/src/api/durable-objects/queue.ts:98-108 | a woken caller starts if and only if the cap has room; nothing else is checked |
| Queue.DOQueueHandler.AddAlarm | packages/cloudflare/src/api/durable-objects/queue.ts:248-261 | keeps an alarm, else sets the earliest retry time, never one in the past |
| Queue.DOQueueHandler.AddToFailedState | packages/cloudflare/src/api/durable-objects/queue.ts:207-246 | count, backoff, persisted row and alarm after a failure, or removal at the limit |
| Queue.DOQueueHandler.FinishRevalidation | packages/cloudflare/src/api/durable-objects/queue.ts:132-187 | the state after every outcome; by status: failed and due in two seconds without an answer or with any but 200 and 404, forgotten on those, the sync row exactly on 200 with REVALIDATED |
| QueueOutcomes.FinishOfNewRoute | packages/cloudflare/src/api/durable-objects/queue.ts:132-187 | a route that had not failed is failed afterwards exactly without an answer or with a status other than 200 and 404, with count 1, its row and an alarm |
| QueueOutcomes.FinishOfFailedRoute | packages/cloudflare/src/api/durable-objects/queue.ts:213-235 | one more try with twice the delay, or removal at the limit |
| QueueOutcomes.FinishWithoutRetry | packages/cloudflare/src/api/durable-objects/queue.ts:133-172 | on 200 and 404 the entry is gone and nothing is recorded but the success of a real revalidation |
| QueueOutcomes.NewAlarmIsTimely | packages/cloudflare/src/api/durable-objects/queue.ts:248-261 | a new alarm is never in the past: the earliest retry, or one interval away when that was missed |
| QueueOutcomes.ExpiredAreRetried | packages/cloudflare/src/api/durable-objects/queue.ts:190-205 | every route whose time has come is tried in the next alarm run |
| QueueOutcomes.NextIsRetried | packages/cloudflare/src/api/durable-objects/queue.ts:193-200 | so is the one due next, when no other is due as early |
| QueueOutcomes.ArrivalIsNeverLost | packages/cloudflare/src/api/durable-objects/queue.ts:81-110 | any run: a message runs at once or waits, unless its id is ongoing or failed or its route was revalidated more than half a second after what it knows |
| QueueOutcomes.OutdatedMessageIsDropped | packages/cloudflare/src/api/durable-objects/queue.ts:87-89 | any run: it is dropped when its route was revalidated a second and a half or more after what it knows |
| QueueOutcomes.RepeatedMessageIsDropped | packages/cloudflare/src/api/durable-objects/queue.ts:81-85 | any run: it is dropped when its id is ongoing or failed |
| QueueOutcomes.OnlyThisBuildIsRestored | packages/cloudflare/src/api/durable-objects/queue.ts:274-282 | a new object keeps exactly the rows of its own build |
| Queue.DOQueueHandler.ExpiredEvents | packages/cloudflare/src/api/durable-objects/queue.ts:197-199 | exactly the failed states whose time has come, each once |
| Queue.DOQueueHandler.NextEvent | packages/cloudflare/src/api/durable-objects/queue.ts:193-195 | an earliest future failed state, or none when there is none |
| Queue.DOQueueHandler.Alarm | packages/cloudflare/src/api/durable-objects/queue.ts:190-205 | retries the selected events one after the other, for any answers |
| QueueRuns.CapAndRetryLimit | packages/cloudflare/src/api/durable-objects/queue.ts:91-103 | any interleaving: ongoing within maxRevalidations, every count between 1 and maxRetries |
| QueueRuns.RunIsGood | packages/cloudflare/src/api/durable-objects/queue.ts:75-246 | the invariant behind it: cap, retry limits, persisted rows equal memory, sync rows come from successes |
| QueueRuns.RestartRestoresRetries | packages/cloudflare/src/api/durable-objects/queue.ts:266-286 | every pending retry comes back with count and time; nothing else does if and only if every row is still pending; an alarm is set |
| QueueHistory.RowsRememberFailures | packages/cloudflare/src/api/durable-objects/queue.ts:236-243 | any run: a route has a row if and only if it has failed at some time |
| QueueHistory.StaleRowsAreDone | packages/cloudflare/src/api/durable-objects/queue.ts:133-172 | any run: a row without a pending retry belongs to a route that failed and was settled since, and conversely |
| QueueHistory.RestartBringsBackExactly | packages/cloudflare/src/api/durable-objects/queue.ts:266-286 | a restart brings back the pending retries and exactly the routes that failed, were settled, and have not come back since; none of those if and only if the maps are equal |
| QueueWitnesses.DoneRouteComesBack | packages/cloudflare/src/api/durable-objects/queue.ts:266-286 | a run in which a route fails, succeeds, and is failed again after a restart |
| QueueHistory.AlarmIsSetExactly | packages/cloudflare/src/api/durable-objects/queue.ts:248-261 | any run: an alarm is set if and only if, since it last fired, a failure was kept for another try or the object restarted with a row |
| QueueWitnesses.FailedRouteIsForgotten | packages/cloudflare/src/api/durable-objects/queue.ts:190-205 | a run that ends with a failed route, no alarm, no retry to do and no request out |
| QueueRuns.RoundedSeconds | packages/cloudflare/src/api/durable-objects/queue.ts:293-303 | the comparison in seconds implies more than 500 ms, and 1500 ms imply it |
| QueueRuns.SyncIdTellsRoutesApart | packages/cloudflare/src/api/durable-objects/queue.ts:165-167 | host and url glued together determine both, for a host without slash and an absolute url |
| QueueRuns.SyncDropIsSound | packages/cloudflare/src/api/durable-objects/queue.ts:160-170 | a message dropped by the sync check had its own route revalidated more than 500 ms after its lastModified |
| QueueFlight.AtMostOnceWithoutStaleWakes | packages/cloudflare/src/api/durable-objects/queue.ts:81-85 | a sufficient condition on wake-ups alone: if each admitted one is neither ongoing nor failed, no id is ever out twice, alarm retries included |
| QueueFlight.WakeDuplicatesExactly | packages/cloudflare/src/api/durable-objects/queue.ts:98-108 | one wake-up: admitting the caller keeps single flight if and only if its id is not out |
| QueueFlight.StepKeepsSingleExactly | packages/cloudflare/src/api/durable-objects/queue.ts:75-111 | each step keeps single flight if and only if it meets its guard: admitted wake-ups, admitted arrivals, and the event the alarm comes to |
| QueueFlight.SingleFlightExactly | packages/cloudflare/src/api/durable-objects/queue.ts:75-205 | any run: no id has been out twice if and only if every step before met its guard |
| QueueWitnesses.WakesAloneDoNotDecide | packages/cloudflare/src/api/durable-objects/queue.ts:98-108 | a run whose woken callers all find their id not out, and which still ends with the id out twice |
| QueueWitnesses.OneIdOutTwice | packages/cloudflare/src/api/durable-objects/queue.ts:98-108 | a run that ends with one id out twice and counted once |
| QueueRetries.EntryCountsExecutions | packages/cloudflare/src/api/durable-objects/queue.ts:207-235 | between first failure and removal, across restarts, the count is the number of executions and the delays add up to the closed form |
| QueueRetries.RetryBudget | packages/cloudflare/src/api/durable-objects/queue.ts:213-235 | across restarts at most maxRetries + 1 executions and 2000 + (2^(maxRetries+1) - 4) * retryInterval ms of delay |
| QueueRetries.SlotsAddUp | packages/cloudflare/src/api/durable-objects/queue.ts:214-227 | the size of the measure is the sum of maxRetries + 1 - retryCount over the entries |
| QueueRetries.AlarmRunMakesProgress | packages/cloudflare/src/api/durable-objects/queue.ts:190-205 | an alarm run on a non-empty map strictly lowers the measure, whatever the outcomes |
| QueueRetries.AlarmRunsEmptyTheMap | packages/cloudflare/src/api/durable-objects/queue.ts:190-246 | with no new messages as many alarm runs as the measure empty the map |
| QueueRetries.AlarmIsSetAgainExactly | packages/cloudflare/src/api/durable-objects/queue.ts:190-261 | an alarm is set after a run if and only if one of its retries failed short of the limit |
| Purge.BucketCachePurge.PurgeCacheByTags | packages/cloudflare/src/api/durable-objects/bucket-cache-purge.ts:29-44 | adds exactly the tags and sets an alarm unless there is one |
| Purge.BucketCachePurge.SelectBatch | packages/cloudflare/src/api/durable-objects/bucket-cache-purge.ts:47-53 | as many tags as there are, up to 100 |
| Purge.BucketCachePurge.Alarm | packages/cloudflare/src/api/durable-objects/bucket-cache-purge.ts:46-94 | ends; disjoint batches of 1 to 100; tags purged by calls that succeeded, dropped with calls that failed, and left are the tags there were, each in one place; empties the table unless rate limited |
| Purge.NonEmptyTableIsWatched | packages/cloudflare/src/api/durable-objects/bucket-cache-purge.ts:39-94 | any interleaving: a non-empty table has an alarm scheduled or a run at work |
| Purge.TagsLeaveOnlyWhenAnswered | packages/cloudflare/src/api/durable-objects/bucket-cache-purge.ts:63-79 | a tag leaves only with the answer to a call that contained it and was not rate limited; it was purged exactly when that call succeeded, dropped otherwise |
| Purge.RequestedTagsAreKeptOrAnswered | packages/cloudflare/src/api/durable-objects/bucket-cache-purge.ts:29-94 | a requested tag is in the table later or such an answer came in between |
| Purge.KeptOnceNotOut | packages/cloudflare/src/api/durable-objects/bucket-cache-purge.ts:46-94 | once a tag is in the table and not out, it is there at every later state or a call that left later has been answered |
| Purge.RequestWhileNotOutIsAnswered | packages/cloudflare/src/api/durable-objects/bucket-cache-purge.ts:29-94 | the same from a request of a tag that is not out |
| Purge.RequestIsServedUnlessDropped | packages/cloudflare/src/api/durable-objects/bucket-cache-purge.ts:29-94 | such a tag is kept or purged by a later call unless a later call for it failed |
| Purge.FateOfRequest | packages/cloudflare/src/api/durable-objects/bucket-cache-purge.ts:29-94 | not requested again, it is in exactly one place: the table, purged by a later call, or dropped with a later call that failed |
| Purge.FailedCallDropsTheTag | packages/cloudflare/src/api/durable-objects/bucket-cache-purge.ts:63-79 | a run in which a requested tag is gone and no call has purged it |
| Purge.RequestIsLostExactly | packages/cloudflare/src/api/durable-objects/bucket-cache-purge.ts:59-79 | with the first answer after a request: the tag is kept or has left again, if and only if not (it was out at the request and the answer was no rate limit) |
| Purge.RequestDuringOwnBatchIsLost | packages/cloudflare/src/api/durable-objects/bucket-cache-purge.ts:59-79 | a run in which a tag requested during its own purge call is dropped with it |
| Decimal.ParsePrint | packages/core/src/utils/cache-get.ts:18-23 | reading the printed form of an integer gives it back |
| Decimal.TenIsTen | packages/core/src/adapters/cache-handler.ts:426-426 | numbers are printed in decimal |
| WireHeaders.NamesAreDistinct | packages/core/src/adapters/cache-handler.ts:417-553 | no two control headers share a name |
| WireHeaders.NoControlHasUserPrefix | packages/core/src/adapters/cache-handler.ts:462-464 | no control header can be taken for a user header |
| WireHeaders.CollectPrefixedHeaders | packages/core/src/utils/cache-get.ts:37-46 | exactly the prefixed headers, under their own names |
| WireHeaders.PrefixedOfRender | packages/core/src/utils/cache-get.ts:37-46 | user headers are recovered exactly, whatever control headers travel with them |
| CacheWire.BuildFetchResponse | packages/core/src/adapters/cache-handler.ts:440-474 | each control header has its text or is absent, user headers are prefixed, the body is the text |
| CacheWire.BuildCachedFileResponse | packages/core/src/adapters/cache-handler.ts:476-545 | the same for the four kinds of file |
| CacheWire.BuildComposableResponse | packages/core/src/adapters/cache-handler.ts:547-565 | the same for composable entries |
| CacheWire.BuildCacheGetResponse | packages/core/src/adapters/cache-handler.ts:414-438 | the whole response to a hit |
| CacheWire.NormalIsIdempotent | packages/core/src/utils/cache-get.ts:134-152 | the normalisation (empty meta data dropped, missing redirect props `{}`) is idempotent |
| CacheWire.NormalMeans | packages/core/src/utils/cache-get.ts:134-196 | the normalisation keeps date, bypass flag, revalidation time, content, status, postponed state and headers; missing or null redirect props become `{}` |
| CacheWire.HitHeaders | packages/core/src/adapters/cache-handler.ts:414-565 | the headers of a hit by their names on the wire, user headers included |
| CacheWire.UnfoundIsMiss | packages/core/src/utils/cache-get.ts:55-56 | a response that does not say it was found is a miss |
| CacheWire.SaidIsHeard | packages/core/src/utils/cache-get.ts:48-196 | any response with an entry's headers and body parses to the normalised entry |
| CacheWire.WireRoundTrip | packages/core/src/utils/cache-get.ts:48-196 | parsing what was built gives the normalised entry, for every entry of every kind |
| CacheWire.DecimalIsLawful | packages/core/src/utils/cache-get.ts:18-34 | decimal numbers meet the law the round trip asks of numbers |
| NextCache.SegmentsToWrite | packages/core/src/adapters/cache.ts:201-206 | the loop encodes every segment under its path |
| NextCache.SegmentsRead | packages/core/src/adapters/cache.ts:86-91 | the loop decodes every segment under its path |
| NextCache.ContentTypeSurvives | packages/core/src/adapters/cache.ts:70-82 | reader and writer pick the same codec although the tags header is gone |
| BinaryContent.BinaryExactly | packages/core/src/utils/binary.ts:62-67 | a content type is binary exactly when it is a listed type, or begins with one and a semicolon |
| BinaryContent.CommonTypesAreBinary | packages/core/src/utils/binary.ts:1-60 | images, fonts, documents, sound, film and archives are listed |
| NextCache.IsBinaryExactly | packages/core/src/adapters/cache.ts:72-79 | the same of a header record; a missing header is not binary |
| NextCache.TextComesBackExactly | packages/core/src/adapters/cache.ts:155-155 | bytes survive the text encoding if and only if they are valid UTF-8 |
| NextCache.RouteComesBack | packages/core/src/adapters/cache.ts:147-164 | stored if and only if it has headers; status and headers come back, the body if and only if binary content type or valid UTF-8 |
| NextCache.AppPageComesBack | packages/core/src/adapters/cache.ts:199-224 | comes back whole if and only if its RSC data and all segments are valid UTF-8 |
| NextCache.PagesComeBack | packages/core/src/adapters/cache.ts:165-198 | html and data come back; string data becomes an app page; an array-valued tags header stores nothing |
| NextCache.RedirectComesBack | packages/core/src/adapters/cache.ts:116-124 | the props come back, null as `{}` |
| NextCache.ValueComesBackExactly | packages/core/src/adapters/cache.ts:52-257 | any value comes back, without the tags header, if and only if storing it does not throw and its bytes survive their encoding |
| NextCache.HeadersBackMeans | packages/core/src/utils/cache.ts:37-49 | headers come back as they were but for the readable tags header |
| NextCache.RevalidateComesBack | packages/core/src/adapters/cache.ts:145-164 | the revalidation time given to `set` reaches the reader of the response |
| NextCache.CarriedTagsAreSet | packages/core/src/adapters/cache.ts:184-196 | the tags in the headers of any value are given to the set, beside the file or in it |
| NextCache.OwnTagRefuses | packages/core/src/adapters/cache.ts:165-224 | a later revalidation of a tag in the value's headers: refused in the original mode for every kind, in the nextMode exactly for all but pages |
| NextCache.SetThenGet | packages/core/src/adapters/cache.ts:52-257 | both modes, any run that still serves the set: a get is a hit, and through handler, wire and parser the value comes back if and only if its bytes survive their encoding |
| SetCookie.LookbehindMeaning | packages/core/src/http/util.ts:61-64 | the scan for a trailing `Expires=word` is the lookbehind of the regular expression |
| SetCookie.IsExpiresMeans | packages/core/src/http/util.ts:64-64 | `Expires=` is recognised in any mixture of small and capital letters |
| SetCookie.ExpiresDateStaysWhole | packages/core/src/http/util.ts:61-64 | a cookie with a date, `Expires=` and a word before its only comma, comes back as one cookie |
| SetCookie.PlainCookiesAreSplit | packages/core/src/http/util.ts:60-65 | two cookies without commas, the first without a date, come back as two |
| SetCookie.TrimTakesBlanks | packages/core/src/http/util.ts:64-64 | trimming takes the blanks at both ends off and nothing else |
| SetCookie.SplitOfJoin | packages/core/src/http/util.ts:60-65 | splitting an unambiguous joined list gives the list |
| SetCookie.SplitPieces | packages/core/src/http/util.ts:60-65 | the pieces of any text are unambiguous and join to the text |
| SetCookie.ParseOfJoin | packages/core/src/http/util.ts:55-68 | joining and parsing give a list back if and only if it is trimmed, unambiguous and not the single empty string |
| SetCookie.OpenNextNodeResponse.FlushHeaders | packages/core/src/http/openNextResponse.ts:142-168 | the merged cookies in priority order; the merged headers repaired once, then for errors, with the cookies put last |
| SetCookie.FlushKeepsCookiesExactly | packages/core/src/http/openNextResponse.ts:158-162 | in both priorities a flush sends the own cookies and the given ones, one text or a list, intact and in order, if and only if the given list survives joining and splitting |
| SetCookie.MergedHeadersMeans | packages/core/src/http/openNextResponse.ts:147-157 | which header wins a flush for each priority |
| SetCookie.ErrorsAreNotCached | packages/core/src/http/openNextResponse.ts:364-375 | 404 and 500 are sent with a cache-control that forbids caching, unless disabled; other headers stay |
| DeploymentMapping.UpdateDeploymentMapping | packages/cloudflare/src/cli/commands/skew-protection.ts:140-157 | the new deployment is current, the old current one gets the newest version, unlisted versions are dropped |
| DeploymentMapping.MappingIsRight | packages/cloudflare/src/cli/commands/skew-protection.ts:100-157 | every history: the newest deploy alone is current, every other mapped deploy has the version it created |
| DeploymentMapping.StaysMappedExactly | packages/cloudflare/src/cli/commands/skew-protection.ts:140-157 | every history: an earlier deploy is still mapped if and only if every deploy since has listed its version |
| DeploymentMapping.MappingIsSmall | packages/cloudflare/src/cli/commands/skew-protection.ts:140-157 | at most one entry more than the versions listed |

## Left out

- Failures of S3, DynamoDB, SQLite and the network, signing and transport; a failed read of the tag table makes the source serve what it should refuse.
- Key building with `path.posix.join` and stripping of the build id: rows are keyed by tag and path; the JSON text of a row key is the row.
- Paging of DynamoDB queries, eventual consistency of its secondary index, and its refusal of duplicate keys in a batch read.
- Time: `Date.now()` is taken to move on between two reads; writes in the same millisecond are not modelled.
- Fetch and composable entries in the handler, with the extra soft-path check of a fetch entry; `shouldBypassTagCache`, `disableTagCache` and the CDN invalidation after a revalidation, which change no persisted state.
- Concurrent handler requests: each get, set, delete and revalidation runs to its end. Only the multi-tier cache and the two schedulers are interleaved.
- CacheHandler.Handler.HandleRevalidateTags: with a negative write concurrency the contract bounds what is stamped and does not list it; a concurrency of zero falls back to the default of 4.
- DynamoBatch.BatchWrite: no two items have one row, which DynamoDB demands of a command and the de-duplication of `writeTags` provides.
- TagCaches.OriginalTagCache.WriteTags: the same.
- TagCaches.NextModeTagCache.WriteTags: the same, no tag twice.
- LruModel.LRUCache.Get: values are never falsy; the source does not refresh a falsy value, and the multi-tier cache stores objects only.
- MultiTier.MultiTierCache.Get: one cache type per key, since the local map is keyed by the key alone.
- MultiTierSteps.LocalValueIsRecent: S3 writes take effect one at a time and S3 dates an object no later than its write.
- Queue.DOQueueHandler.Alarm: the order among events of the same class is arbitrary; `QueueRuns` interleaves the retries with everything else.
- Queue.DOQueueHandler.FinishRevalidation: one reading of the clock per stretch between awaits; the request itself, its protocol and timeout are an outcome.
- QueueRetries.AlarmRunsEmptyTheMap: counts alarm runs and does not say that they come, which `AlarmIsSetExactly` decides.
- Purge.BucketCachePurge.Alarm: the runtime's limit on repeating a failed alarm is not modelled.
- The purge API calls themselves (packages/cloudflare/src/api/overrides/internal.ts): their result is any of the four.
- CacheWire.WireRoundTrip: JSON is a codec with a round-trip law and numbers are integers; a header named `__proto__` is not excluded by the record type of the source.
- CacheWire.SaidIsHeard: text that no builder prints, such as broken JSON, is one outcome `Malformed`.
- NextCache.RouteComesBack: base64 and UTF-8 are codecs with laws: base64 gives all bytes back, text encodes to valid UTF-8, and valid UTF-8 is given back.
- Fetch and image values in `Cache.set`, the computation of the revalidation time from the context, and `store.lastModified`.
- SetCookie.OpenNextNodeResponse.FlushHeaders: what the header-fixing callback does is a parameter; the stream is left out.
- Listing of worker versions and the API calls around the deployment mapping; listed versions are distinct, earlier ones, latest first.
- `composable-cache.ts`, route resolution, converters, wrappers, image optimisation, build plugins and the remaining commands.
