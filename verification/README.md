# A verified model of fsrecon

fsrecon keeps a snapshot of a directory tree in agreement with the real tree and tells
consumers what changed.  This project models the parts of it that have to be right for that
promise, and proves them right, or proves exactly when they are not.

A cleaned absolute path is the sequence of its names; "above" is the prefix order.  Text
matters only where the program compares text, and there the model has it (`Paths`,
`MemoryStore`, `BoltStore`).  A snapshot and a scan are maps from paths to metadata.  What the
environment decides (answers of the sink, torn writes of the store, the disk, the backend, the
room in a channel, the order in which goroutines run) is a parameter, quantified over in every
theorem.

| file | models |
|---|---|
| `Paths.dfy`, `Sorting.dfy`, `Entries.dfy` | paths and their byte order, sorted keys, metadata, events, replaying events |
| `Diff.dfy`, `BoltDiff.dfy`, `BoltReplay.dfy`, `Kinds.dfy` | the semantic diff over shrinking maps, the one-pass diff over identity indexes, and which event says what |
| `Delivery.dfy` | batching a generation for the sink |
| `Scopes.dfy`, `DirtySet.dfy` | from a raw notification to the minimal set of scopes, and what reconciling them does |
| `Protocol.dfy`, `Tracker.dfy`, `Outbox.dfy` | the delivery protocol as a state machine, the operations that refine it, and what the sink receives |
| `Reports.dfy` | the counters of a report |
| `MemoryStore.dfy`, `BoltStore.dfy`, `BoltScopes.dfy` | the two snapshot stores, and a scoped pass over the persistent one |
| `RunLoop.dfy`, `Observer.dfy` | the collector and the worker, the bounded hint buffer |
| `Scanner.dfy`, `WatchTree.dfy` | the cycle-safe scan, the mirror of the watch registrations |

## Main results

1. `Protocol.ConsumerAgrees`: over every run of reconciliations and scrubs in which no scrub leaks,
   whatever the sink refuses and however writes are torn, a consumer that keeps each batch identity
   once agrees with the snapshot whenever nothing is pending.  A scrub leaks (`Protocol.Leaks`) if
   it gets to its own work, cannot read its staged log back to the end after sending something of
   it, and the sink accepts all that was sent.  The hypothesis is exact:
   `Protocol.AgreementSurvivesExactly`, `Protocol.RunAgrees`.
2. `Protocol.BatchIdentityIsImmutable`: over every run, batch identities stay frozen if and only if
   no scrub leaks; then two calls of the sink with the same generation and sequence carry the same
   batch.  `Protocol.IdentitySurvivesExactly`: after a call, some next call reuses a batch identity
   for another batch if and only if the call leaked.
3. `Protocol.CommitFollowsDelivery`: nothing is written before its generation was accepted in
   full and in order, and the generation advances by one per completed operation.
4. `Diff.ReplayReachesCommit` with `Diff.StructureIsExact` and `Diff.Partition`: the events of a
   diff, replayed in any order and with repetitions, turn the old view into the new one, and name
   every path as often as they should.  `Kinds.DiffIsExact`: each event that is true of the fields
   of the entries and of the expected ones occurs once, no other does; `Outbox.ReconciliationReports`
   carries this to what the sink receives.
5. `BoltDiff.BoltAgreesExactly`: the persistent diff reports the same multiset of events if and
   only if a stated condition on identities holds.  `BoltReplay.BoltReplayReachesActual`: replayed in
   its order, it leads to the new view if and only if no path vanishes by a move.
6. `Protocol.PromiseKeptExactly`: a notification that was normalized, added, drained and
   reconciled is reflected in the snapshot if and only if no other reconciliation was pending.
   `Scopes.ScopedEqualsFull` says when partial work equals full work, also if and only if.
7. `DirtySet.Set`, `MemoryStore.Store`, `BoltStore.WalkScope`: each index against the plain
   collection it speeds up, with the exact condition where the two can part.
   `BoltScopes.RightForEveryDiskExactly` carries the gap of the cursor walk into reconciliation.
8. `RunLoop.DirtyIsOwed`, `RunLoop.DemandedIsCovered`, `Observer.CoverageLasts`: no interleaving
   forgets a dirty scope or an announced path.  `RunLoop.RestingStateExactly`: the state that the
   tracker shows when no pass is running is a function of what has happened.
9. `Scanner.Scan`: the scan ends on cyclic graphs and reports every entry of every reachable
   directory exactly once.

## Where the code does less than one would expect

Each of these has a counterexample and, beside it, the exact condition.

- A reconciliation called while another is pending only finishes that one; the scopes it was
  called for are forgotten (`Protocol.DrainedScopeIsForgotten`, `Protocol.PromiseKeptExactly`).
  `docs/consistency.md` speaks of deferring such changes to a later generation; the code does so
  only if something else makes the scopes dirty again.
- The scopes of a failed reconciliation are not put back (`RunLoop.FailedScopeIsNotPutBack`); such
  a scope is covered again only if the collector adds it or a scope above it
  (`RunLoop.RecoveredExactly`).
- A scrub whose staged log cannot be read back leaves no pending generation, so the next one can
  reuse its batch identities (`Protocol.LeakBreaksIdentity`, `Protocol.IdentitySurvivesExactly`), and
  a consumer that drops known identities misses a committed change
  (`Protocol.LostLogMisleadsConsumer`, `Protocol.AgreementSurvivesExactly`).  `docs/consistency.md`
  makes no such exception.
- The entry of a directory scope itself is never refreshed by the pass over it
  (`Scopes.StaleRootEntry`, `Scopes.ReconciledExactly`).
- The persistent diff pairs moves by indexes over all entries and depends on the order of the
  cursor (`BoltDiff.BoltDiffers`, `BoltDiff.BoltAgreesExactly`).  A file whose identity has become
  unknown can so be reported as moved away although it is still there
  (`BoltReplay.BoltReplayLosesFile`, `BoltReplay.BoltReplayReachesActual`).
- The persistent subtree walk stops at the first key that is not under the prefix, and a sibling
  such as `a.txt` sorts before what is below `a` (`BoltStore.SiblingHidesSubtree`,
  `BoltStore.GapExactly`).  A scoped pass then keeps hidden entries that are gone from disk and
  reports nothing of them (`BoltScopes.PassIsRightExactly`, `BoltScopes.HiddenIsNotReported`).
- The in-memory store keys its map by the path as given and its trie by cleaned parts
  (`MemoryStore.SpellingsCollide`, `MemoryStore.InsertKeepsAgreement`).
- The textual prefix test takes a backslash for a separator (`Paths.HasPrefixAcceptsSibling`,
  `Paths.HasPrefixExactly`).
- A subtree hint is dropped if a path hint for the same path is pending
  (`Observer.SubtreeHintIsLost`, `Observer.SubtreeArrivalExactly`).

## Model

| member | source | states |
|---|---|---|
| `Paths.HasPrefixExactly` | store.go:221-230 | the textual prefix test on cleaned paths accepts exactly the descendants and the paths that extend the last name behind a backslash |
| `Paths.HasPrefixIsAncestor` | store.go:221-230 | without backslashes in names the textual test is the ancestor relation, in both directions |
| `Paths.HasPrefixAcceptsSibling` | store.go:228-229 | the test accepts a sibling that is not a descendant |
| `Paths.PathLessIsByteOrder` | internal/reconcile/reconcile.go:205-212 | on cleaned paths the order that everything is sorted by is the byte order of their texts |
| `Sorting.Sort` | internal/reconcile/reconcile.go:205-212 | sorting the keys of a map yields the one sorted enumeration of the set, whatever order the map yields them in |
| `Sorting.SortedIsUnique` | internal/reconcile/reconcile.go:205-212 | a set has only one strictly ordered enumeration |
| `Entries.ReplayAt` | internal/reconcile/reconcile.go:46-55 | what replaying leaves at a path: untouched if no event names it, the target's value otherwise, for any order and repetition |
| `Diff.IndexUniqueIds` | internal/reconcile/reconcile.go:186-203 | maps exactly the non-empty identities that one path alone carries, to that path |
| `Diff.WalkShared` | internal/reconcile/reconcile.go:78-100 | one event per changed shared path, in order; both remaining maps lose exactly the shared paths |
| `Diff.WalkLeftovers` | internal/reconcile/reconcile.go:102-118 | the moves are exactly the pairs of sole leftovers with a common identity, and the rest is what was created and deleted |
| `Diff.WalkStructure` | internal/reconcile/reconcile.go:75-130 | the loops compute the structural events, which are defined without the shrinking maps |
| `Diff.WalkDiff` | internal/reconcile/reconcile.go:74-161 | the whole walk yields the structural events followed by the judgement against the expected entries |
| `Diff.StructureIsExact` | internal/reconcile/reconcile.go:78-130 | an event is emitted if and only if it is true of the two trees |
| `Diff.MovesAreABijection` | internal/reconcile/reconcile.go:102-118 | moved pairs match old and new paths one to one, old ones gone and new ones new |
| `Diff.Partition` | internal/reconcile/reconcile.go:74-130 | every path of one side only is named exactly once, a shared path once if it visibly changed, no other path at all |
| `Diff.ReplayReachesCommit` | internal/reconcile/reconcile.go:74-130 | replaying the events in any order and with any repetition turns a view of the old snapshot into a view of the committed one, also within a larger snapshot |
| `Kinds.SharedKindsAreExact` | internal/reconcile/reconcile.go:86-99 | a shared path is reported as replaced iff both identities are known and differ, as modified iff not so and type, size or time differ, as changed in attributes iff only the mode differs; on both diffs |
| `Kinds.SilenceIsExact` | internal/reconcile/reconcile.go:86-99 | nothing is reported of a shared path if and only if identity, content and mode agree |
| `Kinds.JudgementIsExact` | internal/reconcile/reconcile.go:132-159 | missing iff expected and absent, invalid iff present and a given type or size differs, orphan iff present, unlisted and eligible |
| `Kinds.DiffIsExact` | internal/reconcile/reconcile.go:74-161 | every event that is true of the two trees and of the expected entries occurs exactly once in the walk, and no other event occurs |
| `BoltDiff.IndexAll` | reconcile_bolt.go:354-367 | the identity bucket holds a path exactly for identities that one path alone carries, whatever the order of arrival |
| `BoltDiff.IndexStep` | reconcile_bolt.go:354-367 | one more entry keeps the bucket exact |
| `BoltDiff.MarksAreMatched` | reconcile_bolt.go:213-241 | after each step of the cursor the marked paths are the shared paths met so far and the old paths of moves |
| `BoltDiff.WalkActual` | reconcile_bolt.go:199-253 | the pass over the actual entries emits, path by path, the events given by the marks so far |
| `BoltDiff.WalkPrevious` | reconcile_bolt.go:254-269 | the pass over the previous entries reports the unmarked ones as deleted, in order |
| `BoltDiff.WalkBolt` | reconcile_bolt.go:192-269 | the two passes compute the events of the persistent diff, which are defined by moves between sole carriers of an identity |
| `BoltDiff.BoltIsExact` | reconcile_bolt.go:199-269 | the persistent diff emits an event if and only if it is true by its own notion of a move |
| `BoltDiff.BoltAgreesExactly` | reconcile_bolt.go:192-269 | it reports the same multiset of events as the generic diff if and only if the identities agree |
| `BoltDiff.UsualIdentitiesAgree` | reconcile_bolt.go:232-249 | they agree when identities are injective on both sides and no new path carries the old identity of a path still present |
| `BoltDiff.BoltDiffers` | reconcile_bolt.go:232-249 | a file replaced while its old inode turns up under an earlier name makes the two diffs differ |
| `BoltReplay.BoltReplayReachesActual` | reconcile_bolt.go:199-269 | replaying the events of the persistent diff in the order of the cursors gives the new view if and only if no path that is still there is reported as moved away without a later event about it |
| `BoltReplay.OnlyWithoutIdentity` | reconcile_bolt.go:216-249 | such a path has lost its identity and changed nothing else |
| `BoltReplay.BoltReplayLosesFile` | reconcile_bolt.go:216-249 | two trees for which the replay loses a file |
| `Delivery.BatchesAreExact` | delivery.go:22-57 | the batches concatenate to the events, all but the last are full, the last is not empty, sequences count up, only the last is final |
| `Delivery.DeliverIsInOrder` | delivery.go:22-57 | a delivery calls the sink for a prefix of the batches in order, all but the last call accepted, and succeeds exactly if all were |
| `Delivery.EarlyBatches` | integrity.go:162-180 | what is sent of the first events without finishing is a prefix of what is sent of all of them |
| `Delivery.ChangeBatcher.Add` | delivery.go:22-33 | adding an event leaves the outcome of the whole delivery as it was; a refused batch leaves buffer and sequence as they were |
| `Delivery.ChangeBatcher.Finish` | delivery.go:35-40 | finishing sends what is left as the final batch, and nothing if nothing is left |
| `Delivery.ChangeBatcher.Flush` | delivery.go:42-57 | one call of the sink with the buffered events; sequence and buffer move on exactly if it is accepted |
| `Delivery.DeliverAll` | reconcile.go:254-260 | feeding all events through a batcher makes the calls that the batches of the generation prescribe |
| `Scopes.TopCovers` | internal/dirtyset/dirtyset.go:26-63 | the topmost members cover what the whole set covers |
| `Scopes.TopAbsorbs` | internal/dirtyset/dirtyset.go:26-63 | adding a path to a minimal set absorbs what lies under it, and changes nothing exactly if the path was covered |
| `Scopes.CollapseScopes` | reconcile.go:317-343 | the filtering loops compute the collapsed scopes |
| `Scopes.CollapseIsTop` | reconcile.go:317-343 | what is left are exactly the topmost requests, each once, all within the root |
| `Scopes.CollapseKeepsMinimal` | reconcile.go:317-343 | a list that is already minimal passes unchanged, in its order |
| `Scopes.NormalizeIsNearest` | internal/normalize/normalize.go:18-32 | the hint is the nearest directory strictly above the path within the root, the root for the root, and none outside |
| `Scopes.ComparedExactly` | reconcile.go:66-136 | stored and scanned entries are compared exactly at the paths strictly below a scope and at scopes that are not directories |
| `Scopes.ReconciledExactly` | reconcile.go:66-136 | a pass replaces exactly the entries strictly below its scopes, and at scopes that are not directories, by what is on disk |
| `Scopes.ScopedEqualsFull` | reconcile.go:66-207 | a scoped pass gives the result of a full pass if and only if the snapshot was right wherever only the full pass looks |
| `Scopes.NotificationIsReconciled` | internal/normalize/normalize.go:18-32 | once the hint of a notification was among the drained scopes that were reconciled, the snapshot at its path is the disk at its path |
| `Scopes.RootNotification` | reconcile.go:87-91 | a pass over the root refreshes the root's own entry if and only if the root is not a directory |
| `Scopes.StaleRootEntry` | reconcile.go:87-91 | so there is a snapshot whose root entry stays wrong |
| `Protocol.FrozenEventsReachWrites` | reconcile.go:152-187 | the events frozen for a generation lead a consumer of the old snapshot to the snapshot its writes produce |
| `Protocol.WritesAfterTorn` | reconcile.go:271-289 | writing again after any partial write gives what one full write would have given |
| `Protocol.TornExactly` | reconcile.go:192-207 | a torn write has been carried out at some paths and nowhere else |
| `Protocol.DeliverProgress` | reconcile.go:250-261 | a delivery never sets a deduplicating consumer back, and a successful one takes it through the whole generation |
| `Protocol.CompleteAgrees` | reconcile.go:263-300 | resuming a pending generation keeps consumer and tracker consistent, whether it completes or not |
| `Protocol.DoAgrees` | reconcile.go:35-208 | a call keeps consumer and tracker consistent if and only if it does not leak |
| `Protocol.RunAgrees` | reconcile.go:185-208 | in every state of a run the consumer has caught up, or some number of pending batches will make it catch up, if and only if no call of the run leaks |
| `Protocol.ConsumerAgrees` | reconcile.go:185-208 | at the end of every run without a leak and with nothing pending, the consumer's view is the view of the snapshot |
| `Protocol.AgreementSurvivesExactly` | integrity.go:161-184 | after a call, every next call that leaves nothing pending leaves consumer and snapshot in agreement, whatever the sink answers, if and only if the call did not leak |
| `Protocol.LostLogMisleadsConsumer` | integrity.go:163-180 | from every snapshot there is a run of two calls that ends with nothing pending and the consumer's view wrong |
| `Protocol.DoStaysImmutable` | integrity.go:161-184 | a call keeps batch identities frozen if and only if it does not leak |
| `Protocol.BatchIdentityIsImmutable` | reconcile.go:185-191 | all along a run identities stay frozen if and only if no call leaks; equal generation and sequence then mean equal batches, and the pending generation is the committed one plus one |
| `Protocol.IdentitySurvivesExactly` | integrity.go:161-184 | after a call, no next call can reuse a batch identity for another batch if and only if the call did not leak |
| `Protocol.LeakBreaksIdentity` | integrity.go:163-180 | the next call that reuses an identity after a leak is a scrub that finds one corrupt file |
| `Protocol.CompleteCommitsAfterDelivery` | reconcile.go:263-300 | resuming writes only after every batch was accepted in order, and otherwise keeps the pending generation unchanged |
| `Protocol.CommitFollowsDelivery` | reconcile.go:35-46 | each call first finishes what is pending, then its own work; each part changes the store only after its delivery and advances the generation by exactly one if it completes |
| `Protocol.OwnReconcile` | reconcile.go:44-226 | the own work of a reconciliation changes the store only after full delivery, advances the generation exactly on success, and freezes what it leaves pending |
| `Protocol.OwnScrub` | integrity.go:79-189 | the same for the own work of a scrub, whose staged log may fail to be read back |
| `Protocol.GenerationAdvances` | reconcile.go:226-226 | a successful call advances the generation by one, and by two if it first finished a pending generation of the other kind |
| `Protocol.WithoutSink` | reconcile.go:185-226 | without a sink nothing is pending or sent; success, generation and snapshot after a call are given exactly, also for a torn write |
| `Protocol.FreshReconciles` | reconcile.go:66-207 | a completed reconciliation leaves the snapshot reconciled with the disk within the collapsed scopes |
| `Protocol.NotificationReachesSnapshot` | tracker.go:267-275 | a notification whose hint was drained and reconciled with nothing pending before is reflected in the snapshot |
| `Protocol.ResumingIgnoresScopes` | reconcile.go:35-42 | with a reconciliation pending, neither the requested scopes nor the disk have any influence on the new state or on the answer |
| `Protocol.ResumingIgnoresFindings` | integrity.go:69-77 | with an integrity generation pending, what a scrub would find has no influence on the new state or on the answer |
| `Protocol.PromiseKeptExactly` | reconcile.go:35-42 | a successful call for the drained scopes always reflects the notification if and only if no other reconciliation was pending |
| `Protocol.RetryForgets` | reconcile.go:35-42 | whenever the sink refuses a report and accepts the retry, a path that appeared in between is missing from the snapshot after the successful call for its scope |
| `Protocol.DrainedScopeIsForgotten` | reconcile.go:35-42 | a concrete run from an empty snapshot: the sink refuses once, a file appears, the retry succeeds, the file is missing and nothing is pending |
| `TrackerOps.Tracker.DeliverPending` | reconcile.go:250-261 | makes the calls of the pending generation, and reports whether all were accepted |
| `TrackerOps.Tracker.ResumePending` | reconcile.go:263-300 | the new state of all fields and the answer are those of the protocol's completion step |
| `TrackerOps.Tracker.ResumePendingIntegrity` | integrity.go:196-220 | the same for an integrity generation, which writes nothing |
| `TrackerOps.Tracker.ReconcileScopes` | reconcile.go:23-58 | state and answer are those of a protocol step for a reconciliation |
| `TrackerOps.Tracker.ReconcileFresh` | reconcile.go:44-232 | collapsing, gathering, diffing, delivering and writing together are the protocol's fresh reconciliation |
| `TrackerOps.Tracker.DeliverAndCommit` | reconcile.go:185-208 | with a sink, the generation becomes pending first and is committed only by completing it; without one it is written at once |
| `TrackerOps.Tracker.ScrubContents` | integrity.go:69-194 | state and answer are those of a protocol step for a scrub, including the failure to read back the staged log |
| `TrackerOps.Gather` | reconcile.go:66-136 | the two loops over scopes collect the stored entries under the scopes without the own entries of directories, and the scanned ones |
| `Outbox.ReconciliationReports` | reconcile.go:152-191 | what a completed reconciliation hands to the sink, and a refused one keeps: each event that is true of the compared and the expected entries once, then the policy events as they came |
| `Outbox.ScrubReports` | integrity.go:161-184 | what a completed scrub hands to the sink, and a refused one keeps, is what it found |
| `Outbox.ResumedIsReceived` | reconcile.go:263-270 | a resumed generation that completes hands over what was frozen, in order |
| `Reports.Summarize` | reconcile.go:152-173 | every event is counted once under its kind, the first ones up to the limit are kept, kept plus truncated are all |
| `Reports.StageReportEvent` | reconcile_bolt.go:369-371 | whatever events a report was right about in counters, kept prefix and truncation, it is right about them and the new one |
| `Reports.CountersAreKinds` | reconcile.go:550-571 | each counter is the number of events of its kind; changes of content and of attributes share one |
| `Reports.HealthyIsExact` | reconcile.go:217-219 | the subtraction does not underflow, and gives the number of entries that are unchanged or only moved |
| `Reports.BoltHealthyIsExact` | reconcile_bolt.go:318-320 | the same on the persistent path, by its own notion of a move and whatever the identities |
| `Reports.CountHealthy` | reconcile.go:210-216 | the loop counts the expected entries that are present and violate neither a given type nor a given size |
| `Reports.ExpectedAddsUp` | reconcile.go:210-216 | healthy, missing and invalid, without the hardlink events, add up to the number of expected entries |
| `Reports.BoltExpectedAddsUp` | reconcile_bolt.go:270-296 | the same on the persistent path |
| `DirtySet.AddAtAbsorbs` | internal/dirtyset/dirtyset.go:26-63 | adding to the trie is adding to the minimal set of paths it stands for |
| `DirtySet.AddAtMinimal` | internal/dirtyset/dirtyset.go:26-63 | adding leaves no dirty node above another and no branch without a dirty node |
| `DirtySet.AddAtSize` | internal/dirtyset/dirtyset.go:52-61 | the size changes by one less the dirty nodes that were absorbed |
| `DirtySet.CountDirty` | internal/dirtyset/dirtyset.go:65-77 | the recursive count is the number of dirty paths |
| `DirtySet.Collect` | internal/dirtyset/dirtyset.go:90-98 | the collected paths are the dirty ones, each once |
| `DirtySet.Set.Add` | internal/dirtyset/dirtyset.go:26-63 | after any additions the trie stands for the topmost added paths; the answer is true exactly if that set changed |
| `DirtySet.Set.Len` | internal/dirtyset/dirtyset.go:79-79 | the number of topmost added paths |
| `DirtySet.Set.Drain` | internal/dirtyset/dirtyset.go:81-88 | hands out exactly the topmost added paths, sorted, and starts over |
| `DirtySet.DrainedScopesCollapseToThemselves` | reconcile.go:317-343 | collapsing what was drained changes neither the set nor the order |
| `MemoryStore.CleanParts` | store.go:147-162 | a cleaned absolute path has its own names as parts |
| `MemoryStore.LookupInsert` | store.go:164-179 | inserting changes the trie at the given parts only |
| `MemoryStore.LookupRemove` | store.go:192-210 | removing changes the trie at the given parts only, although it prunes branches |
| `MemoryStore.RemoveNoDeadBranch` | store.go:196-210 | removing leaves no branch without a terminal node |
| `MemoryStore.InsertKeepsAgreement` | store.go:61-73 | inserting keeps map and trie in step if and only if no differently spelled key has the same parts |
| `MemoryStore.RemoveKeepsAgreement` | store.go:75-85 | the same for removing |
| `MemoryStore.Collect` | store.go:212-219 | the collected paths are those held in the subtree, each once |
| `MemoryStore.Store.Put` | store.go:61-73 | the entry is stored; map and trie stay in step if and only if the path is alone with its parts |
| `MemoryStore.Store.Delete` | store.go:75-85 | the entry is gone; map and trie stay in step if and only if the path is alone with its parts |
| `MemoryStore.Store.Apply` | store.go:121-139 | all deletes, then all puts; in step if and only if no path that stays has the parts of a deleted one and no two of the resulting paths have the same parts |
| `MemoryStore.ApartIsSpared` | store.go:121-139 | paths with pairwise different parts, such as cleaned ones, spare each other when deleted |
| `MemoryStore.Store.WalkScope` | store.go:92-119 | visits what the trie holds under the scope, each once, in byte order; if in step, exactly the entries whose parts extend those of the scope; on cleaned paths, those that pass the textual prefix test |
| `MemoryStore.CleanPathsAreApart` | store.go:147-162 | cleaned paths never share their parts |
| `MemoryStore.WithinIsPrefixTest` | store.go:147-230 | on cleaned paths without backslashes the trie walk selects what the textual prefix test selects |
| `MemoryStore.SpellingsCollide` | store.go:61-85 | two spellings of a path have the same parts |
| `BoltStore.WalkScope` | bolt_store.go:112-140 | the cursor visits exactly the run from the first key not before the prefix up to the first key not under it; all keys under the prefix if and only if there is no gap |
| `BoltStore.GapExactly` | bolt_store.go:122-129 | without backslashes there is a gap if and only if some key extends the prefix by a character below the separator and some key lies below the prefix |
| `BoltStore.NoGapAtRoot` | bolt_store.go:122-129 | the walk from the filesystem root is always complete |
| `BoltStore.SiblingHidesSubtree` | bolt_store.go:122-129 | a concrete set of keys with a gap |
| `BoltScopes.HidesExactly` | bolt_store.go:122-129 | a stored path under the scope stays unvisited if and only if there is a gap |
| `BoltScopes.PassIsRightExactly` | reconcile.go:66-136 | a scoped pass over the walked entries gives the right snapshot if and only if every hidden entry that it should have compared is still on disk |
| `BoltScopes.RightForEveryDiskExactly` | reconcile.go:66-136 | it does so for every disk if and only if there is no gap |
| `BoltScopes.HiddenIsNotReported` | reconcile.go:152-165 | nothing is reported of a hidden entry that is gone from disk |
| `BoltScopes.PassOverScope` | reconcile.go:66-207 | walk, comparison and commit together: right without a gap, and otherwise wrong only by silently keeping stored entries that are gone |
| `Observer.StepKeepsBounds` | observer.go:286-320 | every step keeps the bound of the buffer, a pending root hint alone, and the cause of a root hint that stays pending from weakening |
| `Observer.CoverageLasts` | observer.go:241-320 | over every run, a path that a pending hint reaches stays reached by a pending hint or by one sent since |
| `Observer.ArrivalIsAwaited` | observer.go:286-310 | an arriving hint makes its own path awaited at once |
| `Observer.ArrivalExactly` | observer.go:286-320 | which hint is pending after an arrival, with scope and cause: the arriving one, the one that was there, or a root hint with the stronger cause |
| `Observer.SubtreeArrivalExactly` | observer.go:298-310 | the subtree of an arriving subtree hint is awaited if and only if the hint is not shadowed by a pending path hint |
| `Observer.SubtreeHintIsLost` | observer.go:301-304 | for every path below the root there is a buffer that loses its subtree hint |
| `Observer.HintBuffer.Enqueue` | observer.go:286-310 | the new state is that of an arrival step |
| `Observer.HintBuffer.EscalateRoot` | observer.go:312-320 | the root hint takes the place of all others, with the stronger cause |
| `Observer.HintBuffer.Flush` | observer.go:241-256 | the new state is that of a flush step; what stays pending, the root hint or others, found the channel full |
| `Observer.HintBuffer.TrySend` | observer.go:276-285 | a hint goes to the end of the channel exactly if there is room |
| `Scanner.WalkDir` | internal/scanner/scanner.go:80-156 | the walk expands the unseen directories it reaches once each, leaves no edge out of them unseen, and locates every entry it reports |
| `Scanner.Scan` | internal/scanner/scanner.go:70-78 | the scan ends, expands exactly the reachable directories once each, and reports every entry of each exactly once, at a path that leads to it |
| `Scanner.ExploredMore` | internal/scanner/scanner.go:137-147 | descending into one more directory keeps what has been explored exact |
| `WatchTree.LongestFirstIsBottomUp` | internal/watchtree/watchtree.go:62-63 | sorting by descending length of the text puts descendants before ancestors |
| `WatchTree.SortLongestFirst` | internal/watchtree/watchtree.go:63-63 | the sorted list holds the same paths, each once, by descending length |
| `WatchTree.Tree.Add` | internal/watchtree/watchtree.go:31-46 | succeeds iff the path is within the root and watched or accepted by the backend; one call of the backend unless it is watched already |
| `WatchTree.Tree.Sync` | internal/watchtree/watchtree.go:50-71 | removes the unobserved directories in scope except the root, descendants first; fails iff the backend answers a removal with an error, and then exactly those before it are gone; tree and backend agree |
| `WatchTree.Tree.RemoveSubtree` | internal/watchtree/watchtree.go:89-107 | the same for the registrations in the subtree, but what the platform had already dropped does not make it fail |
| `RunLoop.StepIsSafe` | tracker.go:239-321 | every atomic step of collector, worker and callers keeps the invariant behind the next results |
| `RunLoop.EveryRunIsSafe` | tracker.go:239-321 | every interleaving keeps it |
| `RunLoop.DirtyIsOwed` | tracker.go:239-321 | in every interleaving, with the collector between notifications and a scope dirty, a reconciliation is owed, the flag is set and the state is not synced |
| `RunLoop.DemandedIsCovered` | tracker.go:243-254 | what a notification, an error, a stop of the backend or a tick demands is covered once the collector rests, unless it was drained since |
| `RunLoop.SyncedExactly` | tracker.go:443-456 | at every moment of every interleaving the state is synced iff the last pass that published had read a clear flag with backend and tracker running and nothing was reported since |
| `RunLoop.RestingStateExactly` | tracker.go:414-456 | the state whenever no pass is running, from the history of actions |
| `RunLoop.FirstPassSettles` | tracker.go:443-456 | the first pass of a quiet tracker ends in sync |
| `RunLoop.DegradedIsSticky` | tracker.go:422-456 | once the backend has stopped the tracker rests in no other state than degraded, and a closed tracker stays stopped |
| `RunLoop.FailedScopeIsNotPutBack` | tracker.go:267-275 | for every scope a run in which it is drained and its reconciliation fails, after which the state is dirty, nothing covers the scope and nothing is owed |
| `RunLoop.RecoveredExactly` | tracker.go:243-275 | a scope that is not covered is covered again, before the next drain, if and only if the collector has since added it or a scope above it |

## Left out

- The tries of the dirty set and of the in-memory store are values held in a field of a class:
  the model captures what each operation makes of them, not the update of nodes in place or
  aliasing; their loops along a path are recursions on the path.
- The persistent fast path is modelled in its diff and its counters; staging in temporary
  buckets and `replaceSnapshot` (bolt_store.go:162-189) are not, transactions are taken as atomic.
- Filters, non-recursive mode and the symbolic link policies other than reporting (in `Scopes`)
  and following (in `Scanner`).
- `Scanner.Scan`: takes non-empty directory identities and a graph that does not change, so
  directories without an identity, vanished entries and reading listings in batches are outside.
- Loading expected entries from a provider (`loadExpectedScopes`); they come as a map.
- Event times and sources, public event channel, statistics, error values and contexts.
- Wrap-around of unsigned counters, generations and sequences: they are natural numbers, and the
  subtractions are proved not to go below zero.
- Session identifiers are one constant per tracker; a restart is a new run.
- The lifecycle of `Start` and `Close` beyond the closed flag, and the observer's handling of raw
  notifications (`handleRaw`).
- The `Uncertain` flag of a hint, which nothing in the modelled code reads.
- `BoltScopes.PassOverScope`: takes one scope and stored paths that are cleaned and have no backslash in a name;
  with one, the textual test and the ancestor relation differ as `Paths.HasPrefixExactly` says.
- Windows volume names; the encoding of states and events; the contents that a scrub checks.
- Changes made while a scan is running: a scan is one look at the disk.
- The order of writes within one application to the store: a failing store may have carried out
  any subset, which includes every prefix.
