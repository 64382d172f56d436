# Hoglet's durable pipeline, identity projection and bounded algorithms: a verified model

This project models, in Dafny, the parts of Hoglet whose correctness spans many
steps: the write-ahead log and its recovery, publication into the event lake,
compaction and person erasure across crashes, the identity projection and its
override feed, and a handful of algorithms that refine something simpler.
`dafny verify dfyconfig.toml` checks everything.

How the files fit together:

| file | what it holds |
|---|---|
| `Common.dfy` | `Option`, `Result`, JSON values, powers of two |
| `Identity.dfy`, `IdentityStore.dfy` | the meaning of one event for the identity tables, and the SQL statements (a class over the tables) proved to compute it |
| `IdentityRuns.dfy`, `IdentityPartition.dfy`, `Continuity.dfy` | what every run of events and erasures keeps |
| `EventEffects.dfy` | what one event does to people, properties and groups, read off the tables before and after |
| `OverrideFeed.dfy` | the incremental reader of identity overrides, against any interleaving of writers |
| `WalFrame.dfy` | record frames, segment scanning and torn-tail repair, on bytes |
| `WalWindow.dfy`, `WalRotation.dfy` | cursors, windows, reclamation and `publish_through`, while the writer keeps sealing |
| `WalCrash.dfy`, `WalWriter.dfy` | the log as a state machine with a crash possible at every step, and the writer's methods proved to take exactly its steps |
| `Publication.dfy`, `Pipeline.dfy`, `Guarantees.dfy` | one window's publication; the whole pipeline (writer, publisher, catalog, compactor, eraser, crash, reopening) as one state machine; what holds in every run of it |
| `Erasure.dfy`, `ErasureOverreach.dfy` | erasures over every run: what they remove, exactly when they remove more than they should, and two runs in which they do |
| `LakeFiles.dfy`, `LakeStore.dfy`, `LeaseSafety.dfy` | installing a generation in the shared snapshot, sweeping, and lease safety |
| `LzDecoder.dfy`, `LzRoundTrip.dfy` | the bounded LZ-string decoder, a reference encoder, and the round trip |
| `FlagCache.dfy`, `ResultCache.dfy` | the two caches |
| `FeedPaging.dfy` | event feed paging |
| `WebOverview.dfy`, `WebSessions.dfy` | the overview's fast path (bit masks, two passes over sessions) against the general query |

Catalog transactions (SQLite) are single steps. Files keep a synced prefix and any
longer prefix a crash leaves; directory updates not yet fsynced survive a crash
only as a prefix of the order they were made in. Checksums, JSON, Parquet and the
query engine are parameters or set operations. `requires` clauses say what callers
in the repository guarantee; error paths are results.

## What the proofs found

- **Reopening can fail for good.** While the writer is between renaming segment
  `n` and creating `n+1`, the publisher may already commit a checkpoint at `n+1`
  and reclaim `n`. A crash there leaves no segment file, the log restarts at
  segment 1, and the checkpoint names a segment that will never exist. Nothing is
  lost (everything was published), but no later start succeeds
  (`WalCrash.MidSealCrashStrands`, `StrandedLostNothing`, `StrandedForGood`).
  `ReopenSucceedsIff` says exactly when a start succeeds.
- **An erasure can remove events acknowledged after it.** Interrupted by crashes
  only, it is exact: afterwards the readable events are those somebody else's row
  carried when it was committed (`Erasure.ErasureIsExact`). After a failure, though,
  the publisher goes on publishing before the pending erasure is resumed, and with
  more than 10,000 ids one resumption leaves some pending. Either way an event
  acknowledged after the erasure becomes readable under a pending id and is then
  removed with the rest (`ErasureOverreach.FailedErasureTakesTooMuch`,
  `OversizedErasureTakesTooMuch` are complete runs from a new installation). It
  happens exactly when a window commits a row of an id that is pending at that
  moment, which the publisher could check (`Erasure.ExactIffGuarded`,
  `LateRowIsRemoved`).
- **A torn tail can look like corruption.** When only part of a frame reached the
  disk and the file system padded the file with zeros, recovery refuses the segment
  unless none of the frame landed, the file is shorter than a header, or the version
  byte landed and the file ends no later than the part of the length field that
  landed says (`WalFrame.PartialFrameKeptIff`). A cut magic, a lost length and a lost
  payload with zeros past the record's end are all refused
  (`PartialMagicThenZerosRefused`, `LostLengthThenZerosRefused`,
  `LostPayloadThenZerosRefused`), although nothing before them is damaged.
- **A first visit and a login at the same instant change the flag bucket.** The
  bucketing id survives login exactly when the visitor is known, not logged in and
  strictly older than the login (`Continuity.SameBucketAcrossLogin`,
  `SameInstantLoginMovesBucket`).
- **The feed shows at most one page per microsecond**, and apart from that visits
  everything exactly once (`FeedPaging.FollowVisitsAllIff`).

## Model

| member | source | states |
|---|---|---|
| WalFrame.FrameReadsBack | src/pipeline/wal.rs:764-832 | Inspecting any bytes that start with an encoded record recovers that record's length and payload, whatever follows it |
| WalFrame.FrameLayout | src/pipeline/wal.rs:764-773 | The bytes of a frame, one by one: magic, version, zeros, little-endian length and checksum, payload |
| WalFrame.SegmentFile.ScanSegment | src/pipeline/wal.rs:842-932 | The scanning loop agrees with the byte-level specification of what it accepts, and with repair cuts the file to exactly the accepted bytes |
| WalFrame.SegmentFile.IsZeroTail | src/pipeline/wal.rs:935-948 | Answers whether every byte of the range is zero, reading it buffer by buffer |
| WalFrame.SegmentFile.IsRecordBoundary | src/pipeline/wal.rs:1172-1203 | True exactly for the offsets where a record of the validated file starts, or its end |
| WalFrame.SegmentFile.ReadRecord | src/pipeline/wal.rs:775-832 | Reading at an offset returns the record that was framed there, end of file, or the corruption found |
| WalFrame.RecoveryIsExact | src/pipeline/wal.rs:842-932 | A scan succeeds with a given length if and only if the bytes up to it are a concatenation of valid frames and what follows is a torn tail, defined by its bytes, in a file that may be repaired |
| WalFrame.RecoveringTwice | src/pipeline/wal.rs:842-932 | Recovering a recovered segment changes nothing |
| WalFrame.CutLogRecovers | src/pipeline/wal.rs:842-932 | A log cut at any byte recovers to exactly its whole records before the cut, among them every record synced before the crash |
| WalFrame.ZeroTailRecovers | src/pipeline/wal.rs:842-948 | An all-zero tail after a record boundary is dropped and nothing else |
| WalFrame.TornTailIsTorn | src/pipeline/wal.rs:855-915 | The tails recovery drops, byte by byte: too short for a header, all zeros, or a sound header whose record passes the end of the file, or ends there without checking out |
| WalFrame.PartialFrameKeptIff | src/pipeline/wal.rs:842-993 | A frame of which the first bytes landed, then zeros: the log before it is kept if and only if it is shorter than a header, nothing landed, or the version landed and the file ends before the end that the landed length names, or there without checking out; and exactly when it is refused |
| WalFrame.PartialMagicThenZerosRefused | src/pipeline/wal.rs:868-877 | One to four bytes of a header, then zeros, are refused for every log and fill length |
| WalFrame.LostLengthThenZerosRefused | src/pipeline/wal.rs:878-915 | Five to eight bytes of a header, then zeros past the header, are refused |
| WalFrame.LostPayloadThenZerosRefused | src/pipeline/wal.rs:899-908 | A whole header whose payload was lost, with zeros past the record's end, is refused |
| WalWindow.SealedRecords.constructor | src/pipeline/wal.rs:552-581 | Opening at an accepted cursor stands exactly before what is pending there |
| WalWindow.SealedRecords.NextRecord | src/pipeline/wal.rs:587-653 | Yields the first record left and leaves the rest, crossing segment boundaries with a normalised cursor |
| WalWindow.SealedRecords.LeftIsPending | src/pipeline/wal.rs:583-653 | A consumer that stops anywhere and resumes from the cursor finds exactly what was left |
| WalWindow.PublicationWindow.Next | src/pipeline/wal.rs:699-724 | Takes the next record while it fits; the first is taken whatever its size; a record over budget is left for the next window |
| WalWindow.ReadWindow | src/pipeline/wal.rs:487-504 | A window and what is pending at its cursor are together exactly what was pending before; it is empty only if nothing was; it is maximal within the budget; its cursor is a record boundary |
| WalRotation.ReclaimThrough | src/pipeline/wal.rs:735-762 | Removes exactly the segments wholly before the checkpoint, changes nothing a reader at the checkpoint has left, and says when the checkpoint stays readable |
| WalRotation.WhollyBeforeIff | src/pipeline/wal.rs:735-762 | A segment lies wholly before a checkpoint exactly if none of its records is still to be read there |
| WalRotation.MovesKeepTiling | src/pipeline/wal.rs:444-476 | Whatever the writer does between two publisher steps, published and pending records still tile the sealed log |
| WalRotation.PublishWindow | src/lake/publisher.rs:150-265 | Reading, committing and reclaiming one window keeps the tiling; it fails only when no segment file exists at that moment; an empty window never moves the checkpoint, so it changes nothing |
| WalRotation.PublishThrough | src/lake/publisher.rs:138-147 | Terminates however fast the writer seals, publishes in order without gap or repetition, and leaves nothing pending in segments up to the given one |
| WalWriter.WriteAheadLog.SealNonempty | src/pipeline/wal.rs:444-476 | With any of its five I/O calls failing, either the whole seal happened or the log is poisoned; the log's contents never move |
| WalWriter.WriteAheadLog.Write | src/pipeline/wal.rs:323-359 | Succeeds exactly if the log is not poisoned, the batch is not empty and within the limit, and every call it needs succeeds; rotates exactly when the segment would outgrow its target; appends exactly this batch at the returned span; refusals have no effect |
| WalWriter.WriteAheadLog.CommitGroup | src/sink.rs:487-548 | With no I/O failure every acceptable batch is acknowledged and every other is refused for its own reason; after a failure none is; an acknowledged batch is in the log, in order, under the one fsync |
| WalWriter.FramedIsFrame | src/pipeline/wal.rs:340 | What the writer counts as a record's size is the length of its frame |
| WalCrash.StepKeepsInv | src/pipeline/wal.rs:264-310 | Every step of writing, sealing, publishing, reclaiming, crashing and reopening keeps the log's structure and every acknowledgement |
| WalCrash.CrashCutsTail | src/pipeline/wal.rs:842-932 | A crash cuts the log only at its end and never below what was fsynced |
| WalCrash.CrashMayCut | src/pipeline/wal.rs:320-378 | And every such cut can happen: nothing that was not fsynced is safe |
| WalCrash.AcknowledgedSurvive | src/sink.rs:538-548 | In every run with crashes anywhere, an acknowledged record is published or still at its place at or after the checkpoint |
| WalCrash.NothingTakenBack | src/lake/publisher.rs:247-256 | Later steps only append to what is published and never withdraw an acknowledgement |
| WalCrash.ReopenSucceedsIff | src/pipeline/wal.rs:264-310 | Reopening serves exactly when the checkpoint's segment is not past the segment the writer opens; always, if a segment file survived that was not restarted |
| WalCrash.StrandedLostNothing | src/pipeline/wal.rs:1015-1021 | When reopening cannot succeed, everything acknowledged was already published |
| WalCrash.StrandedForGood | src/pipeline/wal.rs:292-297 | And no later step or restart ever makes it succeed |
| WalCrash.MidSealCrashStrands | src/pipeline/wal.rs:444-476 | A concrete run of twelve program steps that leads there |
| Publication.Gather | src/lake/publisher.rs:170-211 | The publication loops apply the identity effects of each event's first copy in the window, in order, and put exactly those rows into partitions of their own project and UTC day |
| Publication.DayOf | src/lake/publisher.rs:195-199 | The day an event is filed under is the UTC day holding its time, and the day the feed looks for its microsecond |
| Publication.FirstCopiesCover | src/lake/publisher.rs:177-200 | Collapsing retries keeps every event of the window and none twice |
| Publication.FirstCopiesAre | src/lake/publisher.rs:177-189 | A row is kept exactly if no row before it has its project and uuid, and kept rows stay in order |
| Publication.NewFilesRead | src/lake/publisher.rs:212-240 | Splitting rows into partition files neither loses nor adds a row |
| Publication.RewriteKeepsOthers | src/lake/compactor.rs:244-256 | A rewrite keeps every event not owned by the erased ids, by a copy no later than any it had, adds none, and drops all rows of its inputs they own |
| Publication.MergedIsCondensed | src/lake/compactor.rs:367-376 | What the merging and the erasing query write, row by row, is such a rewrite |
| Pipeline.PublishKeeps | src/lake/publisher.rs:150-265 | A committed window keeps the invariant of files, identity, checkpoint, promises and requests |
| Pipeline.RewritePartitionKeeps | src/lake/compactor.rs:215-308 | Erasing a partition keeps it, and afterwards only partitions still to do hold rows of the erased ids |
| Pipeline.CommitKeepsReach | src/lake/publisher.rs:138-147 | Publishing never loses ground towards the segments an erasure waits for |
| Pipeline.StepKeeps | src/sink.rs:609-679 | Every step of writer, publisher, compactor, eraser, crash and restart keeps the pipeline's invariant |
| Guarantees.AcknowledgedAreSafe | src/sink.rs:538-548 | In every run each acknowledged batch is still in the log at or after the checkpoint, or published with every event readable, unless an erasure reaches past the position of a copy of it |
| Guarantees.ExactlyOnce | src/lake/publisher.rs:150-265 | Without erasure, readable events are exactly those of the published prefix, the projection is exactly the committed windows applied in order, and the windows tile that prefix |
| Guarantees.CommitsExplainState | src/lake/publisher.rs:150-265 | With erasures too, the projection is the commits in order, and only an erasure reaching past the position of a copy makes a published event unreadable |
| Guarantees.CompactionKeepsEvents | src/lake/compactor.rs:98-173 | A compaction changes no event's visibility, only how many copies are stored |
| Erasure.RequestCoversAcknowledged | src/sink.rs:557-585 | An erasure request is marked beyond every record acknowledged before it |
| Erasure.RequestIsPublished | src/sink.rs:625-635 | When the person is erased, everything logged before the request has been published |
| Erasure.ErasedForGood | src/sink.rs:683-745 | In every run, once an erasure requested after a batch was acknowledged is complete for an id, the batch has left the log and no row of it is readable under that id, ever after |
| Erasure.ClearLeavesNone | src/lake/compactor.rs:207-312 | When an erasure is cleared, no stored row belongs to the erased ids |
| Erasure.PublishingWaitsForErasure | src/sink.rs:307-310 | Without failures, and with at most 10,000 ids per erased person, nothing is published while an erasure is pending, whatever crashes |
| Erasure.ErasureStartsClean | src/sink.rs:625-635 | Within that limit an erasure starts with nothing pending from earlier ones, whatever failed before |
| Erasure.PendingErasures | src/projections.rs:573-593 | Groups the listed ids by project, takes no other, and leaves one out only where the limit is reached |
| Erasure.ErasureIsExact | src/sink.rs:683-745 | However often crashes interrupt it, when an erasure is complete an event is readable if and only if somebody else's row carried it when the erasure was committed, and no row of the person's ids is stored |
| Erasure.ExactIffGuarded | src/sink.rs:620-657 | At no point of a run is a row published after an erasure's commit in reach of that erasure, if and only if no window committed a row of an id pending at that moment |
| Erasure.GuardedRemovals | src/lake/compactor.rs:207-312 | In such a run every row an erasing rewrite can remove was published before the commit that took its id |
| Erasure.GuardedLosses | src/lake/publisher.rs:150-265 | In such a run an event is lost only if a copy of it was published before the commit of an erasure that took its id |
| Erasure.LateRowIsRemoved | src/sink.rs:660-681 | Otherwise the row committed under a pending id is readable, newer than the erasure's commit, and gone as soon as the id is no longer pending, whatever happens in between |
| Erasure.SweptMeans | src/sink.rs:609-681 | In every run the rows due to an erasure are those before its commit, and those of windows committed under an id still pending; nothing later |
| ErasureOverreach.FailedErasureTakesTooMuch | src/sink.rs:620-657 | A run from a new installation in which a failed erasure, resumed, removes an event acknowledged after it |
| ErasureOverreach.OversizedErasureTakesTooMuch | src/projections.rs:573-593 | A run without any failure in which a person of 10,001 ids is erased, a crash follows, and the same happens |
| LakeStore.Lake.Activate | src/lake/mod.rs:385-456 | Installs exactly the new generation: touched projects rebuilt, retired files buried, empty projects gone; every added file is pushed to a project that is present and was built in this call, so that nobody else can hold it; projects not built are unchanged |
| LakeStore.Lake.SweepGraveyard | src/lake/mod.rs:460-495 | Removes exactly the buried files nobody shares whose unlink succeeds |
| LakeFiles.InstalledMembers | src/lake/mod.rs:385-456 | After activation the visible files are the old ones without the retired, and the added ones |
| LeaseSafety.StepKeeps | src/lake/mod.rs:207-291 | Every step of commit, activation, reading, sweeping and restart keeps snapshot, catalog, graveyard and readers consistent |
| LeaseSafety.ReadersNeverMissAFile | src/lake/mod.rs:460-495 | No file reachable from a live lease or an old snapshot was ever unlinked, in any interleaving |
| LeaseSafety.SnapshotIsCatalog | src/lake/mod.rs:207-291 | Outside a commit awaiting activation the snapshot is exactly the catalog's live rows, all of them on disk |
| LeaseSafety.VersionNamesFiles | src/lake/mod.rs:298-314 | Within one process leases with equal data versions hold equal files |
| LeaseSafety.LeasedExactly | src/lake/mod.rs:298-307 | A lease holds exactly the files the snapshot shows for the project on the requested days |
| LeaseSafety.LeaseIsCatalog | src/lake/mod.rs:298-314 | With no commit awaiting activation, a new lease holds exactly the project's live catalog rows of those days, each once |
| IdentityStore.Store.EnsurePerson | src/projections.rs:302-335 | The statements create an unknown id as its own person, and their inserts never collide |
| IdentityStore.Store.MergePersons | src/projections.rs:354-444 | The two ids share a person afterwards exactly if the guard allows it for these two people, the right one survives, a refusal changes nothing; the winner's rows, properties, times and key are those of the table-level meaning |
| IdentityStore.Store.ApplyPersonProperties | src/projections.rs:494-538 | Set-once, set and unset edits in that order, skipped when nothing changes |
| IdentityStore.Store.ApplyIdentity | src/projections.rs:208-272 | All statements of one event together compute its meaning on the tables |
| IdentityStore.Store.ErasePerson | src/projections.rs:543-571 | Erasure removes the person and all their ids, lists them as pending, and bumps epoch and sequence |
| Identity.FoldKeepsValid | src/projections.rs:354-444 | A fold keeps every id resolving to a live person in one lookup, every person a root, stamps marking exactly the overrides, and bucketing keys owned |
| Identity.Merge | src/projections.rs:354-444 | Every merge, refused, direct or swapped, keeps that structure |
| EventEffects.WhoShares | src/projections.rs:208-265 | Two ids share a person after an event if and only if they did before or the event joined their people; which events join whom, and who survives, in terms of names, properties and who is logged in |
| EventEffects.PersonAfter | src/projections.rs:208-287 | After an event that joins nobody: who is logged in, when last seen, and every property, `$unset` over `$set` over stored over `$set_once`; everyone else unchanged |
| EventEffects.PersonAfterJoin | src/projections.rs:386-444 | After a join: the one record left is made of both, the survivor's properties first, the older side's creation time and key, the later sight |
| EventEffects.GroupAfter | src/projections.rs:447-492 | A `$groupidentify` edits exactly the group it names; no other event touches a group |
| EventEffects.ErasureAfter | src/projections.rs:543-571 | An erasure takes the person and exactly the ids resolving to them, and lists those |
| IdentityRuns.RowsAfter | src/projections.rs:208-272 | Which rows and stamps one event changes: exactly the loser's ids, under one fresh stamp |
| IdentityRuns.LoggedInStayApart | src/projections.rs:337-385 | Two different logged-in people never resolve to the same person later, without a dangerous merge or an erasure |
| IdentityRuns.ReplayChangesNothing | src/projections.rs:174-180 | Applying any event twice equals applying it once, including the sequence counter |
| IdentityPartition.PartitionFromEmpty | src/projections.rs:354-444 | Between erasures two ids share a person if and only if the accepted merges connect them |
| OverrideFeed.OverrideNeverReverts | src/projections.rs:414-419 | Within an epoch an override never turns back into identity |
| OverrideFeed.EveryInterleavingIsASchedule | src/projections.rs:48-60 | Any interleaving of events and erasures between reads is one the reader is proved against |
| OverrideFeed.OverridesSince | src/persons.rs:175-249 | A batch covers whole stamps only: nothing between the cursor and its end is skipped or split, even when the tables change between its reads |
| OverrideFeed.Reader.SyncOverrides | src/explore/mod.rs:252-287 | When it reports success and nothing was written since its last batch, the reader's table is exactly the overrides; every batch in an unchanged epoch advances or drains |
| OverrideFeed.Reader.ApplyOverrideChanges | src/explore/mod.rs:289-325 | Applying a batch sets exactly the changed rows and drops those that became identity |
| Continuity.FirstSeenKeyIsOldest | src/projections.rs:402-442 | In every reachable state the bucketing key is one of the person's ids and none of their ids is older |
| Continuity.ResolveSubject | src/flags/mod.rs:63-121 | Which id buckets an evaluation, for every combination of known person, hint and store failure |
| Continuity.SameBucketAcrossLogin | src/flags/mod.rs:37-121 | Before login, between login and publication, and after it the bucketing id is the same if and only if the visitor is known, not logged in and strictly older |
| Continuity.SameInstantLoginMovesBucket | src/projections.rs:402-412 | A concrete login at the instant of the first visit that changes the bucket |
| LzDecoder.Bits.ReadBit | src/capture/decompress.rs:158-166 | Delivers the input's bits in order; the very last bit can never be read |
| LzDecoder.Bits.ReadBits | src/capture/decompress.rs:168-174 | Delivers little-endian numbers of those bits, or nothing past the end |
| LzDecoder.Utf16Output.AppendAll | src/capture/decompress.rs:184-207 | Joins surrogates across calls and stops at the first unit that is malformed or exceeds the budget |
| LzDecoder.Decompress | src/capture/decompress.rs:137-296 | The decoder answers its specification, never fails a counter check, and never writes out more UTF-8 bytes than the budget |
| LzDecoder.Utf8ReadsBack | src/capture/decompress.rs:184-207 | The bytes counted are UTF-8: reading them back gives the character and takes exactly those bytes |
| LzDecoder.EveryLoopHead | src/capture/decompress.rs:246-295 | At every loop head dictionary size plus remaining codes is two to the code width, the width is below 32 for every accepted body, and the dictionary is linear in output plus entries |
| LzRoundTrip.DecoderInvertsEncoder | src/capture/decompress.rs:137-296 | Decoding what the reference encoder produced writes out exactly its input units, or stops exactly where they are malformed or too long |
| LzRoundTrip.RoundTrip | src/capture/decompress.rs:137-296 | Every text arrives unchanged, or is refused as too large exactly when its UTF-8 encoding is longer than the budget |
| LzRoundTrip.DecodesOnlyUtf16 | src/capture/decompress.rs:184-213 | What arrives is a text exactly when the compressed units are its UTF-16 and it fits; malformed units are never repaired |
| LzRoundTrip.KnownPayload | src/capture/decompress.rs:137-296 | The payload clients send for `aaa`, written out, decodes to it |
| LzRoundTrip.Alphabet | src/capture/decompress.rs:137-147 | The base64 alphabet, written out |
| FlagCache.NeverOlderThanAReturnedWrite | src/flags/store.rs:300-348 | A call that looks up after a write of its project returned gets at least that write's version, for any interleaving before, between and after, short of a full counter wrap |
| FlagCache.CachedIsCurrent | src/flags/store.rs:300-348 | A cached project lacks only writes that have not returned, and the cache stays within its limit |
| FlagCache.NextCallHits | src/flags/store.rs:300-326 | With no write returning in between, what a miss loaded is kept and the next call returns it at once |
| FlagCache.WriteInvalidates | src/flags/store.rs:328-348 | A returning write drops its project and keeps every read begun before it out of the cache |
| ResultCache.Cache.Get | src/cache.rs:82-98 | A hit is the value last put under the key, and exactly unexpired entries hit |
| ResultCache.Cache.Put | src/cache.rs:101-135 | Both limits hold afterwards, a fitting value is stored, what was evicted is older than everything kept, and nothing is evicted that would have fitted |
| ResultCache.EqualKeysEqualInputs | src/cache.rs:18-25 | Equal keys of one process mean equal event files and equal identity overrides |
| FeedPaging.Windows.Next | src/explore/events.rs:77-90 | Windows follow each other without gap, doubling in length, down to the first representable day |
| FeedPaging.Collect | src/explore/events.rs:109-132 | The window loop reads exactly the newest rows before the cursor within reach, one more than a page |
| FeedPaging.CutPage | src/explore/events.rs:225-242 | The page cut in place is the specified one, deferring ties |
| FeedPaging.VisitsAllIff | src/explore/events.rs:218-242 | Following pages of any sorted rows skips nothing if and only if no microsecond holds more than a page |
| FeedPaging.FollowVisitsAllIff | src/explore/events.rs:93-132 | Asking again with each cursor visits, newest first, exactly the first page of every microsecond, hence everything iff none holds more |
| WebOverview.Buckets | src/explore/dates.rs:182-197 | The bucket loop returns exactly the starts covering the range, or nothing past the limit |
| WebOverview.IndexIsBucket | src/explore/dates.rs:157-170 | The arithmetic bucket number is the one bucket the truncated time names, for hours, days and weeks |
| WebOverview.TruncateMeans | src/explore/dates.rs:157-170 | Truncating gives the start of the hour, the UTC day or the week's Monday, less than a unit before |
| WebOverview.Accumulate | src/explore/web.rs:325-357 | The row loop sums exactly the groups whose mask or bucket qualifies |
| WebOverview.BitMeansSeen | src/explore/web.rs:276-324 | A bit of a person's merged mask is set exactly when one of their ids was seen in that bucket |
| WebOverview.FastIsGeneral | src/explore/web.rs:235-357 | Visitors, pageviews and both series of the fast path equal the general distinct counts, for any order of the grouped rows |
| WebOverview.VisitorsMean | src/explore/web.rs:474-489 | Visitors are distinct people, ids without an override standing for themselves |
| WebSessions.SidInjective | src/explore/web.rs:82-91 | Two sessions never share a session id text: neither a given id with a gap session, nor persons whose ids contain the separator |
| WebSessions.TotalsAgree | src/explore/web.rs:359-435 | Whatever a session with a pageview adds to a total, the two passes of the fast path add up to the same as grouping by session id text, the second pass running only when needed |
| WebSessions.TieOrderIrrelevant | src/explore/web.rs:399-435 | Totals do not depend on the order of equal times: the gap rule gives an event its session by time alone |
| WebSessions.GapRule | src/explore/web.rs:74-91 | An event without a session id stays in its person's session exactly if at most half an hour has passed since the one before |
| WebSessions.BounceEdge | src/explore/web.rs:380-384 | One pageview and nothing captured is a bounce below ten seconds, and not at ten |
| WebSessions.SessionsAgree | src/explore/web.rs:235-444 | Hence session counts, bounces and summed durations of the two paths agree in either period, although one orders by time and the other by time and uuid |

## Left out

- WalFrame.SegmentFile.IsRecordBoundary: the header checks of this second pass are not modelled as failures, because the file was just validated; the repository runs it only then.
- WalCrash.AcknowledgedSurvive: which reads of the directory race with the writer (`retry_layout_race`) is not modelled; a listing is taken at one instant.
- WalWriter.WriteAheadLog.CommitGroup: the admission limits of a group (batches, bytes, unpublished WAL) and timing of seals are not modelled; any grouping and any seal moment is allowed.
- WalWindow.ReadWindow: the 64-bit saturation of byte counts is not modelled; offsets are unbounded.
- Publication.Gather: the order of rows inside a Parquet file and the catalog's event and property counts are not modelled.
- Pipeline.StepKeeps: an erasure requested while the writer's seal had failed is not modelled; requests are handed over after a successful seal.
- Guarantees.CompactionKeepsEvents: `merge_inputs`, the choice of what to compact, is not modelled; any non-empty set of one partition's files may be merged.
- LeaseSafety.StepKeeps: ids freed by `DELETE` may be reused by SQLite; the model only requires a new file's id to be absent from the table.
- LzDecoder.Decompress: the outer layers of `decode` (form, base64, gzip) are not modelled.
- LzRoundTrip.RoundTrip: the encoder is the published LZ-string algorithm, which the repository uses only through its clients.
- FlagCache.NeverOlderThanAReturnedWrite: definitions are their write counts; compiling them is not modelled.
- WebOverview.FastIsGeneral: month buckets always take the general path.
- WebSessions.SessionsAgree: inside one path the two window functions of the gap rule see equal times in the same order. Durations are whole microseconds, not doubles.
- Continuity.ResolveSubject: creation times are instants; the repository compares their RFC 3339 texts, which order the same way for years 0 to 9999.
- HTTP routing, authentication, rate limits, imports, forwarding, retention, flag evaluation and the query engine are not part of this model.
