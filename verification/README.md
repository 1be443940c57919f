# data-server: a verified model of its configuration tree

The data-server merges prioritised *intents* and the device's *running* configuration into one
schema-shaped tree. From that tree it derives what to update and delete on the device, what to
persist, and how to undo a transaction. This project models the decisions behind that in Dafny and
proves what they guarantee, for every tree, every input and every interleaving.

`dafny verify dfyconfig.toml` checks everything.

## How the model is laid out

| file | what it holds |
|---|---|
| `Base`, `LeafVariants`, `Precedence`, `LeafVariantsStore`, `Deviations` | one leaf: its variants, the precedence scan, the delete decisions, the mutable slice, the deviation report |
| `Choices`, `Tree`, `Lookups`, `Resolution` | the tree: recursive decisions, choice resolution, the look-up of active children |
| `Southbound`, `Elements`, `Convergence`, `Aggregation` | the deletes and updates sent to the device, what the device is left with, and the next look at it |
| `ConflictFree`, `Ties`, `Verdicts`, `CaseChanges` | deletes against updates, the three verdicts against each other, and changed choices on the device, with every call breaking ties between choice cases its own way |
| `CachedTree`, `Walks` | the memoised decisions as an object with caches, and the walks that use them, ties included |
| `VirtualPool`, `WorkerPool`, `Queue` | the worker pools as interleaved atomic steps, the linked queue as an object |
| `Paths`, `Navigation`, `RelativePaths`, `KeyLevels` | schema paths, navigation up and down, list elements behind their key levels |
| `Growth`, `Insertion`, `Shapes` | creating entries, inserting updates with their key leaves, and the shape of the trees this builds |
| `Persist`, `Export`, `Loading`, `Copies` | the persisted form: import, export, loading a store; copying a tree |
| `Branches`, `Sync` | branch deletion, and the overlay of reported configuration on running |
| `Transactions`, `Variants`, `Placement`, `Datastore` | setting intents, what becomes of every variant, recording old content, writing back what can be exported, rolling back |
| `Ranks`, `Outcomes` | every change keeps the tree well formed; what a transaction, or a revert after a sync, finally leaves on the device |

A tree entry is a value: its schema, its children by name, its leaf variants, its choice
resolvers. An entry is identified by its position, the list of names from the root. `VariantAt` and
`LiveAt` observe what one owner holds at one position, and the results about changes to the tree are
stated for every position and every owner. Walks over Go maps pick an arbitrary next element, so the
results hold for every iteration order.

## What turned out not to hold as hoped

Where a hoped-for property fails, the condition under which it holds is proved, in most cases as an
if-and-only-if together with a concrete failing input.

- The precedence scan keeps a deleted second candidate if it saw it before a live one. The leaf ends
  with the right value exactly when it is `Settled` (`Precedence.LeafReconciles`); at most one
  delete-marked variant is enough (`OneDeleteSettles`). `TwoDeletesLoseTheThird` loses a live value.
- An orphaned intent on a leaf without a running value lets a default be sent
  (`OrphanLeaksDefault`); this is the other half of `Settled`.
- Every call looks the best case of a choice up anew, in random order, so two cases with the same
  best priority let two calls on the same tree disagree (`Choices.TiesDisagree`). A `Ties.Breaks`
  says how each call at each entry breaks its ties; "however ties break" means for all of them.
  - Without ties no update lies at or below a delete (`Ties.ConflictFreedom`). In general some way
    of breaking ties puts an intent's update at or below a delete exactly when such an update may be
    reached through a case that was best before and is best now together with one that was not
    (`Ties.ConflictExactly`); `TiedTreeConflicts` is such a tree. Both best cases of the walk for
    deletes come from one pass, so cases tied at both moments do no harm
    (`Choices.OnePassExactly`, `Ties.UnchangedNoConflict`, `DoublyTiedIsQuiet`).
  - `RemainsToExist` is the negation of `CanDelete` however ties break exactly when an entry that
    some best cases let go is let go by all of them (`Verdicts.AlgebraExactly`). `ShouldDelete`
    implies `CanDelete` however ties break exactly when the entry's own value is not to be deleted
    while something below may stay and no tie lets the two look at different cases
    (`Verdicts.ShouldImpliesCanExactly`). `TornVerdicts` is a tree that fails both,
    `Tree.PresenceConflictExample` one without choices that fails the second.
  - Navigating the path of an entry always finds it exactly when every look-up on the way visits it,
    and sometimes exactly when some look-ups do (`Navigation.PathRoundTrip`).
  - What the caches hold are the answers under one and the same way of breaking ties
    (`Caching.Coherent`), and so is what the walks send (`Walks.GetUpdatesAndDeletes`).
- After a transaction a device that held elements of the leading case only does so again
  (`CaseChanges.OneCaseOnDevice`). Something that drifted into another case stays beside it, unless
  its own leaf should go (`OneCaseExactly`, `StrayStays`).
- Setting an intent at a new priority leaves a key leaf that is only un-deleted on the way at the
  priority it had (`Variants.PriorityExactly`, `KeyLeafKeepsItsPriority`); the values of key leaves
  agree anyway, so the device still follows the store (`Outcomes.DeviceFollowsStore`).
- The path of an entry leads back to it only if no key value on the way is "." or "..", which
  navigation takes for steps (`RelativePaths.RoundTripNeedsPlain`, `DotKeyIsMissed`).
- A parent that is emptied by deleting a branch goes, unless it holds a default
  (`Branches.EmptiedParentsGo`, `DefaultKeepsParent`).
- Deleting a branch, or marking it in a sync, does nothing if its path leads into a case that is not
  active: navigation does not find it (`Branches.BranchDeletionExact`, `InactiveBranchStays`).
- An insertion keeps the key leaves in place if and only if it does not put another value into a key
  leaf (`Insertion.InsertionKeepsExactly`, `ClosureExactly`, `MisnamedKeyBreaks`). An element so
  misnamed is loaded again under the other name (`Persist.MisnamedKeyMoves`).
- After a settled tree has been applied, the next look finds something to do if and only if some
  leaf holds an explicit delete that ranks before every live intent but behind a deleted variant,
  and the device is left with a value there (`Convergence.ConvergesExactly`, `WaitingLeaf`); behind
  a live intent an explicit delete does not wait (`OutrankedDoesNotWait`).
- Aggregated deletes take a whole list element along when its keys go: the device ends with what is
  desired outside such elements exactly when every leaf there is settled
  (`Aggregation.AggregatedReconciliation`). What is desired and lost inside them is exactly what only
  the device holds (`LostIsRunningOnly`, `RunningOnlyIsTakenAlong`).
- The virtual pool may signal done while an accepted task still waits, as soon as a second task is
  submitted from outside: drain safety holds exactly for at most one such submission
  (`VirtualPool.DrainSafeExactly`, `SecondIsLost`).
- A sync pass that leaves nothing but defaults in the tree stops at the root, which has no parent to
  be removed from; clearing the flags then brings the deleted values back (`Sync.SyncExact`,
  `DeletedLeafComesBack`). In a tree with choices the same happens to a leaf whose emptied branch the
  clean-up does not find again (`Sync.SyncLeafExact`).
- A rollback restores leaves and priority of every intent, but its non-revertive and orphan marks
  only if they were unset (`Transactions.RollbackDropsMarks`, `MarkIsLost`).
- The deviation report sends a losing intent twice exactly when it led for a while but not from the
  start of the scan, else once (`Deviations.GetDeviations`, `LoserTimes`, `SentTwice`).

## Model

| member | source | states |
|---|---|---|
| `Leaves.HighestIsFirstMin` | pkg/tree/api/leaf_variants.go:312-345 | the scan's highest precedence is the first variant of least priority number |
| `Leaves.OnlyRunningMeaning` | pkg/tree/api/leaf_variants.go:115-138 | the length test means: running is here and no intent is |
| `Leaves.CanDeleteMeaning` | pkg/tree/api/leaf_variants.go:140-174 | CanDelete holds exactly if the winner is an explicit delete, or no intent survives and running is not the only content |
| `Leaves.LeafAlgebra` | pkg/tree/api/leaf_variants.go:140-251 | on one leaf RemainsToExist is the negation of CanDelete, and ShouldDelete implies CanDelete |
| `Precedence.SecondIsRivalOrBest` | pkg/tree/api/leaf_variants.go:330-345 | what the scan keeps as second candidate: the displaced leader or the best live variant behind it |
| `Precedence.SecondCandidateExact` | pkg/tree/api/leaf_variants.go:330-379 | when the winner is deleted, the second candidate is deleted exactly when the scan is stuck, and otherwise it is the best live variant |
| `Precedence.OneDeleteNeverStuck` | pkg/tree/api/leaf_variants.go:337-345 | with at most one delete-marked variant the scan is never stuck |
| `Precedence.LeafReconciles` | pkg/tree/api/leaf_variants.go:312-401 | whatever deletes cover the leaf within what CanDelete and ShouldDelete allow, the device ends with the desired value if and only if the leaf is settled; explicit deletes, orphans and non-revertive intents included |
| `Precedence.OneDeleteSettles` | pkg/tree/api/leaf_variants.go:312-401 | at most one delete mark and no orphan mark make a leaf settled |
| `Precedence.TwoDeletesLoseTheThird` | pkg/tree/api/leaf_variants.go:337-345 | a concrete leaf with two delete marks whose live third intent is not applied |
| `Precedence.OrphanLeaksDefault` | pkg/tree/api/leaf_variants.go:360-379 | a concrete leaf with an orphaned intent and no running value for which the default is sent |
| `LeafStore.AddedPerOwner` | pkg/tree/api/leaf_variants.go:29-47 | adding upserts one owner: its value is the added one, live, and no other owner's variant changes; owners stay unique |
| `LeafStore.RemovedPerOwner` | pkg/tree/api/leaf_variants.go:441-452 | deleting by owner removes that owner's variant and no other |
| `LeafStore.RemovedIfDeletedPerOwner` | pkg/tree/api/leaf_variants.go:101-113 | only a delete-marked variant of the owner is removed |
| `LeafStore.MarkedPerOwner` | pkg/tree/api/leaf_variants.go:419-426 | marking changes the owner's variant only |
| `LeafStore.ResetPerOwner` | pkg/tree/api/leaf_variants.go:428-439 | resetting changes flags of every variant and nothing else |
| `LeafStore.LeafVariants.AddWithStats` | pkg/tree/api/leaf_variants.go:29-47 | the in-place add computes `Added` and reports kept, updated or new |
| `LeafStore.LeafVariants.DeleteByOwner` | pkg/tree/api/leaf_variants.go:441-452 | in place: removes and returns the owner's variant |
| `LeafStore.LeafVariants.RemoveDeletedByOwner` | pkg/tree/api/leaf_variants.go:101-113 | in place: removes and returns the owner's delete-marked variant |
| `LeafStore.LeafVariants.MarkOwnerForDeletion` | pkg/tree/api/leaf_variants.go:419-426 | in place: marks the owner's variant and says whether there was one |
| `LeafStore.LeafVariants.ResetFlags` | pkg/tree/api/leaf_variants.go:428-439 | in place: all chosen flags reset, and the number of variants that carried one |
| `LeafStore.ResetCountZero` | pkg/tree/api/leaf_variants.go:428-439 | the count is zero exactly when resetting changes nothing |
| `LeafStore.LeafVariants.GetHighestPrecedence` | pkg/tree/api/leaf_variants.go:312-379 | the loop over the slice computes `HighestPrecedence` |
| `LeafStore.LeafVariants.CanDeleteScan` | pkg/tree/api/leaf_variants.go:140-174 | the loop decides CanDelete |
| `LeafStore.LeafVariants.ShouldDeleteScan` | pkg/tree/api/leaf_variants.go:176-212 | the loop decides: running is here, and the winner is an explicit delete or there are intents and none survives |
| `LeafStore.LeafVariants.RemainsToExistScan` | pkg/tree/api/leaf_variants.go:214-251 | the loop decides RemainsToExist |
| `LeafStore.LeafVariants.CanDeleteBranchScan` | pkg/tree/api/leaf_variants.go:72-98 | the loop decides CanDeleteBranch |
| `Deviations.GetDeviations` | pkg/tree/api/leaf_variants.go:454-536 | overruled are exactly the losing intents with another value than the leader, each sent once or, if it led for a while but not from the start, twice; NotApplied exactly when the device lacks the leader's value, Unhandled exactly when no intent speaks for a running value |
| `Deviations.ScanIntents` | pkg/tree/api/leaf_variants.go:471-500 | the one-pass scan finds running and the leader and lists every intent as often as `Times` says |
| `Deviations.LoserTimes` | pkg/tree/api/leaf_variants.go:477-500 | a losing intent is listed twice exactly when the scan took it for the leader and it was not the first intent, else once |
| `Deviations.SentTwice` | pkg/tree/api/leaf_variants.go:477-510 | a concrete leaf whose middle intent is reported twice |
| `Deviations.NotAppliedIsSent` | pkg/tree/api/leaf_variants.go:312-401 | on flag-free revertive leaves NotApplied is reported exactly when the southbound decision returns that same variant |
| `Choices.CaseMinimum` | pkg/tree/api/choice_case_resolver.go:207-225 | the running minimum over a case is its least priority, in any order |
| `Choices.GetBestCases` | pkg/tree/api/choice_case_resolver.go:131-152 | both results come from one pass in some order: each is the first best case of its moment in that order, so never two different cases that are best at both moments |
| `Choices.OnePassExactly` | pkg/tree/api/choice_case_resolver.go:131-152 | the pairs some order of the pass finds are exactly the best cases of the two moments that are not two different cases best at both |
| `Choices.TiesDisagree` | pkg/tree/api/choice_case_resolver.go:131-175 | a concrete tie: one walk deletes an element that another treats as active |
| `Copies.CopyResolver` | pkg/tree/api/choice_case_resolver.go:59-80 | the copy, its element maps rebuilt from the copied cases in any order, is the same resolver, so the same cases are best at both moments |
| `Copies.CopyVariants` | pkg/tree/api/leaf_variants.go:265-280 | adding copies of the variants one by one gives the same list |
| `Copies.CopyTree` | pkg/tree/sharedEntryAttributes.go:59-85 | a copy of a tree has the same entries, variants and resolvers |
| `Resolution.LeafPrecedence` | pkg/tree/api/leaf_variants.go:253-263 | the loop computes the least priority over the counting variants of a leaf |
| `Resolution.BranchPrecedence` | pkg/tree/ops/gethighestprecedencevalueofbranch.go:11-27 | the walk computes the least priority over a whole branch |
| `Resolution.FinishedSameLeaves` | pkg/tree/sharedEntryAttributes.go:481-512 | finishing the insertion phase changes no leaf, whatever cases it enters |
| `Resolution.DecisiveFinishes` | pkg/tree/sharedEntryAttributes.go:481-551 | if the measured numbers are decisive, the phase has one result and leaves no ties |
| `Lookups.ActiveNames` | pkg/tree/sharedEntryAttributes.go:553-579 | the look-up returns the children that are active with one best case for each choice: only such as may be visited, and all that must be |
| `Ties.OneCaseActive` | pkg/tree/sharedEntryAttributes.go:514-579 | whatever best case a look-up after the insertion phase finds, its active children include elements of at most one case per choice (section 7.9 of RFC 7950) |
| `Ties.ActiveCaseAttainsMinimum` | pkg/tree/sharedEntryAttributes.go:514-551 | the case it finds holds the least priority over all live non-default variants below any element of the choice |
| `Ties.EmptyChoiceSkipped` | pkg/tree/api/choice_case_resolver.go:115-129 | a look-up finds no case exactly when no element of the choice holds such a variant, and then every element is skipped |
| `Verdicts.AlgebraExactly` | pkg/tree/sharedEntryAttributes.go:279-399 | RemainsToExist is the negation of CanDelete however ties break if and only if an entry that some best cases let go is let go by all of them |
| `Verdicts.AlgebraWithoutTies` | pkg/tree/sharedEntryAttributes.go:279-399 | without ties it always is |
| `Verdicts.ShouldImpliesCanExactly` | pkg/tree/sharedEntryAttributes.go:279-373 | ShouldDelete implies CanDelete however ties break if and only if the entry is neither in presence conflict nor lets a tie show ShouldDelete a reason to go and CanDelete a child that stays |
| `Verdicts.ShouldImpliesCanWithoutTies` | pkg/tree/sharedEntryAttributes.go:279-373 | without ties it does exactly when the entry is in no presence conflict |
| `Tree.ExclusiveHasNoConflict` | pkg/tree/sharedEntryAttributes.go:24-28 | where variants and children exclude each other there is no presence conflict |
| `Tree.CanDeleteByLeaves` | pkg/tree/sharedEntryAttributes.go:279-302 | an entry may go exactly when every leaf on the active part of it may |
| `Tree.ShouldDeleteByLeaves` | pkg/tree/sharedEntryAttributes.go:325-373 | an entry is to be deleted exactly when its own leaf should go, or all of it may go and somewhere on its active part a leaf should go or choices are left with nothing active |
| `Verdicts.DeletedTakesNothing` | pkg/tree/sharedEntryAttributes.go:325-373 | where these conditions hold, no surviving leaf that any walk may reach lies below an entry that is to be deleted |
| `Verdicts.TornVerdicts` | pkg/tree/sharedEntryAttributes.go:279-399 | a concrete tree with a tie that fails both conditions without a presence conflict |
| `Tree.PresenceConflictExample` | pkg/tree/sharedEntryAttributes.go:325-373 | a concrete tree with ShouldDelete but not CanDelete |
| `Southbound.CoveredStep` | pkg/tree/ops/getdeletes.go:31-92 | a path below an entry that is not deleted whole is covered exactly by the choice deletes or by the deletes of its child |
| `Southbound.CoveredCanDelete` | pkg/tree/ops/getdeletes.go:31-92 | on choice-free trees a covered active entry may be deleted |
| `Southbound.ShouldDeleteCovered` | pkg/tree/ops/getdeletes.go:74-92 | every leaf that should be deleted is covered by an emitted delete |
| `Southbound.UpdateAt` | pkg/tree/ops/gethighestprecedence.go:15-27 | the updates hold, at each path, exactly the decision of the active leaf there |
| `Elements.ElementsExactly` | pkg/tree/ops/getdeletes.go:31-43 | in a tree whose entries sit where the schema says, the entries that may be deleted by their keys are exactly those at the last of a list's key levels, whatever their number |
| `Elements.EmittedExactly` | pkg/tree/ops/getdeletes.go:11-92 | the recursive walk emits exactly the paths above which nothing goes as a whole and which go themselves, told by paths and schema positions: list elements by their keys, entries by their verdict, elements of lost cases |
| `Elements.UnmarkedEmitsNothing` | pkg/tree/ops/getdeletes.go:11-92 | a tree without delete marks and changed choices emits no delete however ties break; aggregated, exactly when every list element has an entry for one of its keys |
| `Southbound.Reconciliation` | pkg/tree/ops/getdeletes.go:74-92 | on choice-free trees, applying the regular deletes and then the updates to running gives exactly the desired configuration if and only if every leaf is settled |
| `Southbound.OneDeletePerLeafReconciles` | pkg/tree/ops/getdeletes.go:74-92 | at most one delete mark and no orphan mark per leaf: every leaf ends with the best live intent's value, absent if all its intents are deleted, unchanged if only running holds it |
| `Convergence.NextNotSent` | pkg/tree/api/leaf_variants.go:312-401 | a leaf that holds what it should sends nothing at the next look |
| `Convergence.LedByExplicit` | pkg/tree/api/leaf_variants.go:312-345 | an explicit delete leads the leaf at the next look exactly when it ranks before every live intent now |
| `Convergence.NextDeleted` | pkg/tree/api/leaf_variants.go:176-212 | a leaf that holds what it should is to be deleted at the next look exactly under that condition |
| `Convergence.Converges` | pkg/datastore/sync.go:132-162 | once the regular deletes and the updates of a settled tree are applied, and no explicit delete waits, the next look finds nothing to delete, aggregated or not, and nothing to send |
| `Convergence.ConvergesExactly` | pkg/datastore/sync.go:132-162 | the regular deletes and updates of the next look are empty if and only if no leaf holds an explicit delete that ranks before every live intent but not first, with a live intent, or an orphan and a running value, beside it |
| `Convergence.WaitingLeaf` | pkg/tree/api/leaf_variants.go:312-379 | a concrete leaf that is sent now and deleted at the next look |
| `Convergence.OutrankedDoesNotWait` | pkg/tree/api/leaf_variants.go:312-379 | a concrete leaf whose explicit delete is behind a deleted and a live variant, and does not wait |
| `Aggregation.AggregatedReconciliation` | pkg/tree/ops/getdeletes.go:31-72 | on choice-free trees, whose key leaves are held by whoever survives below, applying the aggregated deletes and then the updates gives exactly the desired configuration without the list elements whose keys go, if and only if every leaf outside these is settled |
| `Aggregation.LostIsRunningOnly` | pkg/tree/ops/getdeletes.go:31-72 | a leaf inside such an element is desired, and lost, exactly when only running holds it |
| `Aggregation.AggregatedConverges` | pkg/datastore/sync.go:132-162 | once the aggregated deletes and the updates of a settled tree are applied, and no explicit delete waits, the next look finds nothing to delete and nothing to send |
| `Aggregation.RunningOnlyIsTakenAlong` | pkg/tree/ops/getdeletes.go:31-72 | a concrete list element that takes a leaf only the device holds along |
| `ConflictFree.GuardedElementStays` | pkg/tree/ops/getdeletes.go:31-72 | a list element below which an owner survives, who also survives in the key leaves, is not deleted by its keys |
| `Ties.ActiveByOneWay` | pkg/tree/api/choice_case_resolver.go:115-152 | without ties every call sees the same children as active |
| `Ties.ConflictFreedom` | pkg/tree/ops/getdeletes.go:16-92 | if no choice on the active part is tied, no presence container is in conflict and, for aggregation, whoever survives below a list element survives in its key leaves, no update lies at or below any emitted delete, regular, aggregated or from a changed choice, however each call looks up its best case |
| `Ties.DeletableHasNoIntent` | pkg/tree/sharedEntryAttributes.go:279-302 | in a measured tree without explicit deletes, an entry that may be deleted under any way of breaking ties has no live intent as its best number |
| `Ties.UpdatedShouldNotGo` | pkg/tree/sharedEntryAttributes.go:325-373 | however ties break, an entry with an intent's update below it is not to be deleted |
| `Ties.ConflictExactly` | pkg/tree/api/choice_case_resolver.go:131-175 | in a measured tree some way of breaking ties puts an intent's update at or below a delete if and only if such an update may be reached through a case that was best before and is best now together with one that was not |
| `Ties.UnchangedNoConflict` | pkg/tree/api/choice_case_resolver.go:131-175 | choices whose numbers did not change have no conflict, tied or not |
| `Ties.DoublyTiedIsQuiet` | pkg/tree/api/choice_case_resolver.go:131-175 | a concrete tree with two cases tied at both moments, which has no conflict |
| `Ties.TiedTreeConflicts` | pkg/tree/api/choice_case_resolver.go:131-175 | a concrete measured tree with such a conflict |
| `Ties.FinishedIsMeasured` | pkg/tree/sharedEntryAttributes.go:481-551 | after the insertion phase, whatever cases it entered, all choices hold the numbers of their branches, unless choices are nested |
| `CaseChanges.MeasuredByFlags` | pkg/tree/api/entry.go:102-112 | a branch is measured now by its variants that are not deleted, before by those that are not new, defaults apart |
| `CaseChanges.LeaderIsBest` | pkg/tree/api/choice_case_resolver.go:131-152 | every look-up finds the case below which the least priority of such variants lies |
| `CaseChanges.ChangedCaseIsDeleted` | pkg/tree/api/choice_case_resolver.go:164-175 | if the least priority before lay in one case and lies in another now, every element of the first is covered by an emitted delete |
| `CaseChanges.OneCaseOnDevice` | pkg/tree/api/choice_case_resolver.go:164-175 | if the device held elements of the leading case only, after the deletes and updates it holds elements of the case that leads now only (section 7.9 of RFC 7950) |
| `CaseChanges.OneCaseExactly` | pkg/tree/api/choice_case_resolver.go:164-175 | in general it ends so if and only if the choice itself is deleted or every leaf the device holds outside the leading and the lost case should go |
| `CaseChanges.StrayStays` | pkg/tree/api/choice_case_resolver.go:164-175 | a concrete tree after which the device holds elements of both cases |
| `Caching.CachedTree.CanDeleteAt` | pkg/tree/sharedEntryAttributes.go:279-302 | the answer has its reason in the caches of the children its look-up found active; caches that can be relied on stay so, and what was cached stays cached |
| `Caching.CachedTree.ShouldDeleteAt` | pkg/tree/sharedEntryAttributes.go:325-373 | likewise for ShouldDelete, which stops at the first child that has to stay, in any order of the children |
| `Caching.CachedTree.RemainsAt` | pkg/tree/sharedEntryAttributes.go:376-399 | likewise for RemainsToExist |
| `Caching.CachedTree.FinishAt` | pkg/tree/sharedEntryAttributes.go:481-551 | on any tree, ties and nested choices included, the phase measures and resolves what it enters and leaves caches to rely on, although populating fills some too early |
| `Caching.CachedTree.Finish` | pkg/tree/sharedEntryAttributes.go:481-551 | after the phase on the root the caches can be relied on everywhere if they could before, and on the whole active part, whatever they held before, if the numbers are decisive |
| `Caching.CachedTree.Ask` | pkg/tree/sharedEntryAttributes.go:279-399 | any sequence of queries gets exactly the uncached answers under one fair way of breaking ties, and without ties the one answer there is |
| `Caching.Coherent` | pkg/tree/sharedEntryAttributes.go:279-399 | all answers that reliable caches hold are the uncached answers under one fair way of breaking ties |
| `Walks.GetDeletes` | pkg/tree/ops/getdeletes.go:11-92 | the paths collected with the caches are exactly those one fair way of breaking ties emits |
| `Walks.UpdatesWalk` | pkg/tree/ops/gethighestprecedence.go:15-27 | the updates collected are exactly those the look-ups the walk made lead to, each at its own path |
| `Walks.GetUpdatesAndDeletes` | pkg/datastore/transaction_rpc.go:314-315 | updates and deletes collected one after the other are those of one and the same fair way of breaking ties |
| `Walks.CoversOneWay` | pkg/tree/ops/getdeletes.go:11-92 | without ties the collected deletes cover an actively reachable entry exactly when the specified ones do |
| `Walks.UpdatesOneWay` | pkg/tree/ops/gethighestprecedence.go:15-27 | without ties the emitted updates are the specified ones |
| `Walks.SentWithoutConflict` | pkg/datastore/transaction_rpc.go:314-315 | without ties no collected update lies at or below a collected delete |
| `VirtualPool.CountedStep` | pkg/pool/virtual_pool.go:192-261 | in every step the in-flight counter equals the number of tickets that hold a token |
| `VirtualPool.WakeUpStep` | pkg/pool/virtual_pool.go:237-283 | in every step, a closed pool at zero is done or some thread is between its counter step and its signal |
| `VirtualPool.RunKeepsInv` | pkg/pool/virtual_pool.go:136-294 | every run of any submitters, workers and closers keeps all invariants |
| `VirtualPool.NoLostWakeUp` | pkg/pool/virtual_pool.go:192-283 | closed, zero in flight and no thread between its steps: done is already closed, fail-fast closure included |
| `VirtualPool.DrainSafety` | pkg/pool/virtual_pool.go:167-294 | with at most one outside submission, once done is closed no accepted task waits or runs, each was started or skipped exactly once, nothing is skipped without an error, and a tolerant pool's errors are exactly the multiset the tasks returned |
| `VirtualPool.ClosedPoolProgresses` | pkg/pool/virtual_pool.go:167-283 | a closed pool that is not done has an enabled step of its own, without any new submission or close |
| `VirtualPool.SecondIsLost` | pkg/pool/virtual_pool.go:212-243 | a concrete run with two outside submissions in which done is closed while the second task is queued |
| `VirtualPool.DrainSafeExactly` | pkg/pool/virtual_pool.go:212-243 | drain safety holds in all runs with n outside submissions if and only if n is at most one |
| `VirtualPool.FirstErrorIsFirst` | pkg/pool/virtual_pool.go:167-210 | in every run the recorded error is the first one a task of a fail-fast pool returned |
| `VirtualPool.StartedExactly` | pkg/pool/virtual_pool.go:167-173 | in every run exactly the tasks that begin before the first error are started, and those that begin after it are skipped |
| `VirtualPool.ErrorStopsAll` | pkg/pool/virtual_pool.go:167-210 | once an error is recorded it never changes and no task is started any more |
| `VirtualPool.DrainedAfterError` | pkg/pool/virtual_pool.go:167-210 | in a drained fail-fast pool every accepted task had been started when the error was recorded, or was skipped, once |
| `VirtualPool.ErrorCloses` | pkg/pool/virtual_pool.go:192-210 | once an error is recorded the pool is closed, or the task that failed is about to close it |
| `VirtualPool.ErrorStopsNesting` | pkg/pool/virtual_pool.go:253-270 | who is about to submit a nested task after an error was so when it was recorded |
| `VirtualPool.LateIsTurnedAway` | pkg/pool/virtual_pool.go:212-236 | a submission from outside that starts after the pool was closed or an error recorded is never accepted |
| `WorkerPool.LenNeverUnderReports` | pkg/pool/queue.go:41-101 | in every reachable state the length counter is at least the length of the queue, and both are zero when nothing is in flight |
| `WorkerPool.MonitorNeverMissesTheEnd` | pkg/pool/pool.go:67-190 | after CloseForSubmit, with nothing in flight and no broadcast on its way, the monitor is not waiting |
| `WorkerPool.Conservation` | pkg/pool/pool.go:79-190 | when all workers have exited, every accepted item was handled exactly once, the queue is empty, and every further Put is refused |
| `WorkerPool.GracefulShutdown` | pkg/pool/pool.go:149-224 | without a failing handler and without outside submissions after CloseForSubmit, nothing is ever refused, and the queue is closed only when all accepted work is handled |
| `WorkerPool.FailureCloses` | pkg/pool/pool.go:79-147 | after a failing handler the queue is closed, or the worker is on its way to close it |
| `WorkerPool.ClosesWhenEmpty` | pkg/pool/pool.go:149-190 | the monitor decides to close only when the queue is empty and submission is closed |
| `WorkerPool.SleepsOnlyForWork` | pkg/pool/pool.go:149-190 | the monitor goes to sleep only when submission is open and nothing failed, or something is in flight or counted |
| `WorkerPool.RunKeepsInv` | pkg/pool/pool.go:67-224 | every run keeps the pool's invariants |
| `Queues.WorkerPoolQueue.Put` | pkg/pool/queue.go:41-54 | the linked list refines a FIFO sequence: appends unless closed |
| `Queues.WorkerPoolQueue.Pop` | pkg/pool/queue.go:56-97 | unlinks and returns the front of the sequence |
| `Queues.Drain` | pkg/pool/queue.go:82-97 | taking items until the queue is empty returns its sequence in order, and the size counter falls by as many |
| `Paths.DeclarationOrderIrrelevant` | pkg/tree/ops/getschemakeys.go:12-38 | the alphabetical key order does not depend on the order of declaration |
| `Paths.PathWalksItself` | pkg/tree/sharedEntryAttributes.go:600-672 | the path derived from a position names exactly the levels of that position |
| `Paths.PathsDistinct` | pkg/tree/sharedEntryAttributes.go:600-672 | distinct entries have distinct paths |
| `Navigation.FirstAncestorWithSchema` | pkg/tree/ops/getfirstancesterwithschema.go:8-23 | the loop finds the nearest ancestor with a schema and counts the levels to it |
| `Navigation.NavigateWalks` | pkg/tree/ops/navigatesdcpbpath.go:18-67 | navigating a path without dots may lead exactly where walking the levels it names may, every step looking its active children up anew |
| `Navigation.PathRoundTrip` | pkg/tree/ops/navigatesdcpbpath.go:18-67 | navigating the path of an entry from the root leads to it or nowhere; to it however ties break if and only if every look-up on the way must visit it, and in some way if and only if some look-ups do |
| `Navigation.NavigatesExactly` | pkg/tree/ops/navigatesdcpbpath.go:18-67 | every place such a navigation may lead to |
| `Navigation.PathRoundTripWithoutTies` | pkg/tree/ops/navigatesdcpbpath.go:18-67 | without ties it leads to the entry exactly when that is actively reachable |
| `RelativePaths.StepsUp` | pkg/tree/ops/navigatesdcpbpath.go:33-49 | from an entry with a schema, n steps ".." lead to the entry whose path is n elements shorter, keys and key levels included, and the rest of the path is navigated from there |
| `RelativePaths.BeyondTheRoot` | pkg/tree/ops/navigatesdcpbpath.go:33-49 | more steps up than the path has elements lead nowhere |
| `RelativePaths.HereStays` | pkg/tree/ops/navigatesdcpbpath.go:31-32 | any number of "." in front of a path makes no difference |
| `RelativePaths.RoundTripNeedsPlain` | pkg/tree/ops/navigatesdcpbpath.go:50-66 | some navigation of an entry's path finds it if and only if some look-ups visit it and no name on the way is "." or ".." |
| `RelativePaths.DotKeyIsMissed` | pkg/tree/ops/navigatesdcpbpath.go:58-64 | a concrete list element whose path leads to the root |
| `Growth.GrowSucceeds` | pkg/tree/ops/getorcreatechilds.go:12-63 | creating entries along a path fails exactly when the schema does not know it |
| `Growth.GetOrCreateExisting` | pkg/tree/ops/getorcreatechilds.go:12-63 | asking for the path of an existing entry leads to it and creates nothing |
| `Growth.InsertObserved` | pkg/tree/ops/getorcreatechilds.go:67-113 | an insertion sets one owner's variant at one path and leaves every other observation as it was |
| `Insertion.EnsureKeys` | pkg/tree/ops/checkandcreatekeysasleafs.go:40-94 | the backwards loop over the keys computes `KeysEnsured` |
| `Insertion.PreparedObserved` | pkg/tree/ops/checkandcreatekeysasleafs.go:13-94 | afterwards every key leaf of the list element is live for the owner with its key level's name, and nothing else changed |
| `Insertion.AddUpdateObserved` | pkg/tree/ops/getorcreatechilds.go:67-113 | an update sets its path, whatever value it carries, and the key leaves on the way, and nothing else of its owner |
| `Insertion.AddUpdateOthers` | pkg/tree/ops/getorcreatechilds.go:67-113 | an update leaves every other owner's variants alone |
| `Insertion.AddUpdates` | pkg/tree/ops/getorcreatechilds.go:67-113 | adding a list of updates computes `AddAll` |
| `Insertion.KeyLeafClosure` | pkg/tree/ops/checkandcreatekeysasleafs.go:13-94 | every sequence of insertions by any owners keeps: what is live below a list element comes with live key leaves that carry the names of their alphabetical key levels (section 7.8.2 of RFC 7950) |
| `Insertion.AddUpdateSucceeds` | pkg/tree/ops/getorcreatechilds.go:81-113 | an insertion fails exactly when the schema does not know its path |
| `Insertion.InsertionKeepsExactly` | pkg/tree/ops/checkandcreatekeysasleafs.go:13-94 | one insertion keeps every owner's key leaves in place if and only if it does not put another value into a key leaf |
| `Insertion.ClosureExactly` | pkg/tree/ops/checkandcreatekeysasleafs.go:13-94 | a sequence of insertions keeps the closure throughout if and only if none of them does |
| `Insertion.MisnamedKeyBreaks` | pkg/tree/ops/checkandcreatekeysasleafs.go:13-94 | a concrete insertion that breaks it |
| `KeyLevels.FilterChilds` | pkg/tree/ops/filterchilds.go:13-50 | exactly the list elements that agree with a partial key map, each once |
| `KeyLevels.GetListChilds` | pkg/tree/ops/getlistchilds.go:12-52 | exactly the elements behind all key levels, each once; an error for anything but a list |
| `KeyLevels.FilterIsSelection` | pkg/tree/ops/filterchilds.go:13-50 | filtering returns exactly the elements of GetListChilds whose key levels agree with the map |
| `KeyLevels.FilterIgnoresDeclarationOrder` | pkg/tree/ops/filterchilds.go:18-19 | the order in which keys are declared makes no difference to the result |
| `Persist.ImportSucceeds` | pkg/tree/processors/processor_importer.go:77-147 | import fails exactly when a name is unknown to the schema or a list element lacks a key leaf |
| `Persist.ImportedObserved` | pkg/tree/processors/processor_importer.go:77-211 | importing overlays the element's content, key levels rebuilt from key leaves, on the owner's content and leaves all other owners alone |
| `Persist.WalkKeys` | pkg/tree/processors/processor_importer.go:86-118 | the loop over the alphabetical keys finds or creates the element's key levels, or reports a missing key leaf |
| `Persist.ImportElement` | pkg/tree/processors/processor_importer.go:77-211 | the walk with its loops computes `Imported` |
| `Persist.MisnamedKeyMoves` | pkg/tree/processors/processor_importer.go:97-118 | a concrete element whose key leaf carries another value is imported under that value |
| `Export.ExportLevel` | pkg/tree/ops/treeexport.go:41-103 | the exported elements are importable, stand for exactly the owner's live content, and are none exactly when there is none |
| `Export.ExportList` | pkg/tree/ops/treeexport.go:57-81 | a list exports one element per list entry that holds something; the dropped key levels can be read back from its key leaves |
| `Export.TreeExport` | pkg/tree/ops/treeexport.go:14-38 | "not present" exactly when the live content and the explicit deletes are both empty; else the intent with exactly that content |
| `Export.PersistRoundTrip` | pkg/tree/importer/proto/proto_tree_importer.go:62-97 | exporting and importing into a tree where the owner holds nothing gives exactly the owner's live content at the intent's priority and changes no other owner |
| `Shapes.AddUpdateTyped` | pkg/tree/ops/getorcreatechilds.go:67-113 | an insertion, with the key leaves and defaults it creates, keeps every entry where the schema says |
| `Shapes.KeyLeafIsLeaf` | pkg/tree/ops/checkandcreatekeysasleafs.go:13-94 | the key leaves an insertion creates sit at leaves of the schema |
| `Shapes.BuiltIsExportable` | pkg/tree/ops/treeexport.go:41-103 | every tree that insertions at leaves build from an empty root meets the requirements of the export, for every owner |
| `Shapes.ImportedTyped` | pkg/tree/processors/processor_importer.go:77-211 | import puts every entry where the schema says |
| `Shapes.CreatedDefaults` | pkg/tree/ops/getorcreatechilds.go:12-63 | creating entries gives every new one the defaults of its schema, at the rank of defaults, and changes no default there is |
| `Ranks.AddUpdateFine` | pkg/tree/ops/getorcreatechilds.go:67-113 | an insertion keeps owners unique, ranks in order, values where they belong and entries where the schema says |
| `Ranks.ImportedFine` | pkg/tree/processors/processor_importer.go:77-211 | so does an import |
| `Ranks.BranchDeletedFine` | pkg/tree/ops/deletebranch.go:16-84 | so does deleting a branch |
| `Ranks.SyncedFine` | pkg/datastore/sync.go:20-101 | so does a sync pass, after which running ranks as running and carries no flag |
| `Loading.ExportStandsForLeaves` | pkg/datastore/transaction_rpc.go:363-392 | what an export persists stands for the leaves the store keeps |
| `Loading.ImportLoads` | pkg/datastore/transaction_rpc.go:161-202 | importing one more intent loads it and disturbs none loaded before |
| `Loading.LoadAll` | pkg/datastore/transaction_rpc.go:161-202 | loading all persisted intents, in any order, fails for none, makes the tree hold exactly the store, unmarked and at the stored priorities, keeps the tree well formed and leaves running alone |
| `Branches.DeletableIsLeaving` | pkg/tree/sharedEntryAttributes.go:304-322 | everything in a deletable branch is on its way out, or a default that need not be kept |
| `Branches.LeavingIsDeletable` | pkg/tree/sharedEntryAttributes.go:304-322 | conversely, a branch with nothing else is deletable |
| `Branches.DeletableExactly` | pkg/tree/sharedEntryAttributes.go:304-322 | a branch may be deleted exactly when nothing stays in it, defaults counted if they are to be kept |
| `Branches.CanDeleteBranchWalk` | pkg/tree/sharedEntryAttributes.go:304-322 | the walk over the children decides CanDeleteBranch |
| `Branches.PurgedKeeps` | pkg/tree/ops/deletebranch.go:66-84 | purging a branch takes the owner's variants and, of others, at most defaults and variants on their way out |
| `Branches.PrunedUpKeeps` | pkg/tree/ops/deletebranch.go:49-61 | pruning upwards loses nothing but variants on their way out, defaults included |
| `Branches.BranchDeletionConserves` | pkg/tree/ops/deletebranch.go:16-84 | below a path that is found no variant of the owner is left; any other non-default owner's variant anywhere, and any variant outside the branch, is kept unless it was on its way out |
| `Branches.Navigate` | pkg/tree/ops/navigatesdcpbpath.go:50-66 | the walk through active children finds a path only if some way of breaking ties reaches it, and misses it only if some way does not |
| `Branches.ResolvesActive` | pkg/tree/ops/navigatesdcpbpath.go:50-66 | without ties a path is found exactly when it is actively reachable |
| `Branches.BranchDeletionExact` | pkg/tree/ops/deletebranch.go:28-45 | without ties the owner holds nothing below the path afterwards if and only if the path is actively reachable or it held nothing there |
| `Branches.EmptiedParentsGo` | pkg/tree/ops/deletebranch.go:49-61 | after deleting a branch that is found neither its entry nor one above it but the root is left that holds nothing |
| `Branches.EmptiedBelowGo` | pkg/tree/ops/deletebranch.go:66-84 | below its entry nothing is left that holds nothing but defaults |
| `Branches.DefaultKeepsParent` | pkg/tree/ops/deletebranch.go:49-61 | a concrete parent that is left with a default, although it may be deleted with it |
| `Branches.InactiveBranchStays` | pkg/tree/ops/deletebranch.go:28-37 | a concrete tree in which deleting a branch of the losing case changes nothing |
| `Branches.Purge` | pkg/tree/ops/deletebranch.go:66-84 | the loop over the children computes `Purged` |
| `Branches.PruneChilds` | pkg/tree/sharedEntryAttributes.go:431-438 | the loop keeps exactly the children that may not be deleted |
| `Branches.BranchTree.DeleteBranch` | pkg/tree/ops/deletebranch.go:16-64 | in place: navigation through active children from the given entry, the purge and the upward loop, which ends at the root at the latest, compute `BranchDeleted` |
| `Sync.MarkedUnderObserved` | pkg/datastore/sync.go:30-56 | exactly the running variants at or below a delete path that was found are marked |
| `Sync.MarkWalk` | pkg/tree/processors/processor_mark_owner_delete.go:65-83 | the walk marks the owner's variants in the whole subtree |
| `Sync.RemoveDeleted` | pkg/tree/processors/processor_remove_deleted.go:103-132 | the walk removes marked variants and collects exactly the entries it stops at |
| `Sync.MarkedIsBelowZero` | pkg/tree/processors/processor_remove_deleted.go:103-132 | whatever is still marked lies at or below an entry the walk stopped at |
| `Sync.ResetFlagsWalk` | pkg/tree/processors/processor_reset_flags.go:100-114 | the walk resets the flags of every variant in the tree |
| `Sync.RootZero` | pkg/tree/processors/processor_remove_deleted.go:113-119 | the walk stops at the root exactly when nothing but defaults is to stay |
| `Sync.StopsAtChild` | pkg/tree/processors/processor_remove_deleted.go:103-132 | the walk stops at a child exactly when nothing stays there: below a key level not even a default, below a container or list nothing but defaults |
| `Sync.SyncOverlay` | pkg/datastore/sync.go:20-101 | if every emptied branch is found again and something stays, running ends as the old running without the leaves under the delete paths that were found, overlaid with the import, flags clear; other owners hold what they held |
| `Sync.SyncResurrects` | pkg/datastore/sync.go:72-101 | on any tree, if nothing stays, every deleted running value is back after the pass |
| `Sync.SyncExact` | pkg/datastore/sync.go:20-101 | if every emptied branch is found again, the overlay is met if and only if something but defaults stays or running was empty |
| `Sync.SyncLeafExact` | pkg/datastore/sync.go:20-101 | on any tree, leaf by leaf: running ends as the overlay says if and only if the clean-up left no mark on it |
| `Sync.ChoiceFreeFinds` | pkg/tree/processors/processor_remove_deleted.go:103-132 | without choices every emptied branch that is still there is found again |
| `Sync.DeletedLeafComesBack` | pkg/datastore/sync.go:72-101 | a concrete tree whose only running leaf is deleted and comes back |
| `Sync.ApplyToRunning` | pkg/datastore/sync.go:20-101 | on any tree the passes in place, one after the other, compute `Synced` with the look-ups they made; an import error ends them early |
| `Sync.ApplyWithoutChoices` | pkg/datastore/sync.go:20-101 | on a choice-free tree the passes meet the overlay if and only if something but defaults stays or running was empty |
| `Transactions.MarkAllObserved` | pkg/tree/processors/processor_mark_owner_delete.go:65-83 | the whole-tree walk marks every variant of the owner and no other |
| `Transactions.ApplyIntentObserved` | pkg/datastore/transaction_rpc.go:229-275 | after one intent its live content is exactly the transaction's, and every other owner holds what it held (priorities and flags: `Variants.TransactionVariant`) |
| `Transactions.ApplyIntentsOwn` | pkg/datastore/transaction_rpc.go:229-275 | every intent of a transaction ends with its own content, in any order of the intents |
| `Transactions.AcceptedExactly` | pkg/datastore/transaction_rpc.go:257-270 | the tree stays in order through an intent's updates if and only if none of them puts another value into a key leaf |
| `Variants.AddUpdateVariant` | pkg/tree/ops/getorcreatechilds.go:81-113 | what an insertion makes of every variant of its owner, flags and priority included, at every path |
| `Variants.TransactionVariant` | pkg/datastore/transaction_rpc.go:229-275 | what a transaction makes of every variant of every intent it sets, in any order of the intents |
| `Variants.PriorityExactly` | pkg/tree/ops/checkandcreatekeysasleafs.go:50-61 | a set intent's live variant has the intent's priority if and only if the intent updates that path itself, or held nothing there, or held it at that priority |
| `Variants.ChangeIsFlagged` | pkg/datastore/transaction_rpc.go:253-265 | it is new or updated unless nothing about it changed, or the intent is non-revertive and was applied before |
| `Variants.TransactionRanks` | pkg/datastore/transaction_rpc.go:229-275 | both, for every intent of a transaction |
| `Variants.KeyLeafKeepsItsPriority` | pkg/tree/ops/checkandcreatekeysasleafs.go:50-61 | a concrete intent set at priority 20 whose key leaf stays at 10 |
| `Variants.OrphanSurvives` | pkg/tree/api/leaf_entry.go:114-124 | a variant marked deleted stays on the device if and only if it is orphaned |
| `Variants.NonRevertiveSentExactly` | pkg/tree/api/leaf_variants.go:312-401 | a non-revertive intent that leads its leaf is sent exactly when it is set to something else than it was |
| `Transactions.ContentIsListed` | pkg/datastore/transaction_rpc.go:229-265 | reinserting recorded content, in any order, gives back exactly that content |
| `Transactions.StoreStaysOk` | pkg/datastore/transaction_rpc.go:363-392 | a transaction, even if only its first intents are written back, leaves no empty intent in the store and every intent with its key leaves |
| `Transactions.RecordingIsRecorded` | pkg/datastore/transaction_rpc.go:230-255 | what is recorded from the loaded tree is the intent's whole old content at its old priority |
| `Transactions.RollbackInverse` | pkg/datastore/transaction_rpc.go:229-392 | a transaction and then the transaction of its recorded contents restore every intent's leaves and priority, created and removed intents included |
| `Transactions.RollbackDropsMarks` | pkg/datastore/types/transaction.go:143-155 | the whole stored intent is back if and only if it was neither non-revertive nor orphan |
| `Transactions.MarkIsLost` | pkg/datastore/types/transaction.go:143-155 | a concrete store whose non-revertive intent does not come back as it was |
| `Placement.TransactionExportable` | pkg/datastore/transaction_rpc.go:363-392 | after a transaction every intent it set meets the requirements of the export; presence containers included |
| `Placement.LoadedOk` | pkg/datastore/transaction_rpc.go:161-202 | a tree loaded from a sound store is fit for a transaction |
| `Outcomes.TransactionSucceeds` | pkg/datastore/transaction_rpc.go:229-275 | a transaction can be applied exactly when the schema knows the paths of its updates |
| `Outcomes.TransactionFine` | pkg/datastore/transaction_rpc.go:229-275 | a transaction keeps the tree well formed, ranks included |
| `Outcomes.TransactionReconciles` | pkg/datastore/transaction_rpc.go:314-353 | on a choice-free tree its aggregated deletes and updates leave the device with what its tree desires outside list elements whose keys go, if and only if every leaf there is settled; likewise its regular deletes everywhere |
| `Outcomes.SingleIntentReconciles` | pkg/datastore/transaction_rpc.go:229-353 | setting a single intent, not orphaned, always leaves the device with exactly what is desired |
| `Outcomes.DeviceFollowsStore` | pkg/datastore/transaction_rpc.go:229-392 | after a settled transaction the device holds at every path the value of the intent that then ranks first in the store; where none holds it any more, nothing if the transaction took it away, and else what it held |
| `Outcomes.SyncedBase` | pkg/datastore/sync.go:20-101 | after a sync pass the tree of running is well formed, running at its rank, without intents |
| `Outcomes.RevertReconciles` | pkg/datastore/sync.go:132-162 | a revert on such a tree with the store loaded deletes nothing, leaves the device with exactly what is desired, and the next look is quiet |
| `Datastores.Datastore.Load` | pkg/datastore/transaction_rpc.go:206-220 | loading the persisted intents into a copy of the running tree gives a tree that holds exactly the store, is fit for a transaction and as well formed as running |
| `Datastores.Datastore.WriteBack` | pkg/datastore/transaction_rpc.go:363-392 | exports and writes the intents, all of them or up to the one whose write fails; the persisted intents stand for the leaves of the store throughout |
| `Datastores.LeafsOfOwner` | pkg/tree/ops/getbyowner.go:12-41 | every variant of the owner in the tree, and nothing else |
| `Datastores.Transaction.AddTransactionIntent` | pkg/datastore/types/transaction.go:132-140 | adds an intent once, and refuses a second one of that name |
| `Datastores.Transaction.AddIntentContent` | pkg/datastore/types/transaction.go:143-155 | records the old content of an intent once |
| `Datastores.Transaction.GetRollbackTransaction` | pkg/datastore/types/transaction.go:93-101 | a new rollback transaction that sets exactly the recorded old intents |
| `Datastores.Datastore.ApplyAll` | pkg/datastore/transaction_rpc.go:229-275 | takes the intents in any order, recording for each the content it had before the transaction, and fails exactly on a path the schema does not know |
| `Datastores.Datastore.TransactionSet` | pkg/datastore/transaction_rpc.go:205-409 | loads, applies, and writes back: refused exactly on an unknown path, a failed validation or an unwilling device, a dry run changes nothing, a failed write leaves the first intents written, and otherwise it is completed: the store is `StoreAfter`, all old contents are recorded and the tree is well formed, ranks included |
| `Datastores.SetAndRollback` | pkg/datastore/transaction_rpc.go:205-392 | a completed transaction and its completed rollback, each loading the persisted intents it finds and exporting what it writes, restore leaves and priority of every intent; known paths and a willing device complete both |

## Left out

- Values: a typed value is a type tag and its text, and a key's text is the text of its key leaf; the protobuf encoding is taken to be faithful.
- Sharing: variants and entries are values identified by owner and position, so pointer identity and aliasing are not captured; the entry caches are maps keyed by position.
- Concurrency in the tree walks: walks run one task after another; the pools that run them are modelled on their own. A removed branch that another clean-up still holds a reference to is not modelled.
- Context cancellation, timeouts, panics, the rollback timer and lock re-entrancy.
- Schema client, southbound targets, XML and JSON rendering, gRPC server, the validators, logging: the schema is a value, the device and the store are maps, validation and device answers are parameters.
- Explicit delete paths: flags on variants are modelled, their placement from paths is not.
- Created entries carry no choice resolvers, so insertion and choices are treated apart; the resolution results start from a tree that has them.
- Replace transactions, the write-back of a transaction to running, and a failing removal of an intent from the store, which is only logged.
- Ties.ConflictExactly: requires every choice to hold the numbers of its branches; below a case that the insertion phase did not enter, nested choices are not measured (`Ties.FinishedIsMeasured`). Explicit deletes and sent defaults are covered by `Ties.ConflictFreedom` only.
- Persist.ImportedObserved: a leaf-list is imported as one value; single scalars, which other importers hand over one by one, are not appended.
- Persist.ImportElement: the same for leaf-lists.
- Export.TreeExport: requires entries to sit where the schema says, values in leaves or childless presence containers and key leaves in place; proved for trees built by insertions (`Shapes.BuiltIsExportable`) and after transactions (`Placement.TransactionExportable`).
- Sync.ApplyToRunning: after an import error the tree keeps the marks, and the part already imported is not modelled.
- Sync.SyncOverlay: requires every emptied branch that is still there to be found again from its parent; so it is without choices (`Sync.ChoiceFreeFinds`), and in general the outcome is stated leaf by leaf (`Sync.SyncLeafExact`).
- Sync.SyncExact: requires the same.
- Insertion.KeyLeafClosure: requires updates that put no other value into a key leaf; exactly those keep the closure (`Insertion.ClosureExactly`).
- Transactions.ApplyIntentObserved: requires the same of a transaction's updates; exactly those keep the tree in order (`Transactions.AcceptedExactly`), and an element with another value in its key leaf is loaded again under that value (`Persist.MisnamedKeyMoves`).
- Transactions.ApplyIntentsOwn: requires the same.
- Datastores.Transaction.AddIntentContent: explicit delete paths of the old intent are not recorded; the results are about transactions without them.
- Datastores.Transaction.GetRollbackTransaction: explicit delete paths are not carried, and the timer is not modelled.
- Convergence.Converges: applies the regular deletes; the aggregated ones are `Aggregation.AggregatedConverges`. A look with aggregated deletes also requires every list element to have an entry for one of its keys; without one the code aggregates.
- Convergence.ConvergesExactly: applies the regular deletes, for the same reason.
- Growth.NewEntry: loading defaults into a new list element also creates key leaves owned by "default"; the model creates none, and the results about key leaves are about other owners.
- Elements.EmittedExactly: requires that no schema declares a key twice.
- CaseChanges.OneCaseExactly: regular deletes, and choices that are not nested below elements of a choice.
- Outcomes.DeviceFollowsStore: choice-free trees, intents that are not orphaned, and paths at which no owner is non-revertive; a transaction does not change which owners an entry names as non-revertive in this model. Two intents of the same priority at one path are not ranked.
- Outcomes.RevertReconciles: choice-free trees.
- RelativePaths.StepsUp: starts at an entry with a schema; from a list element itself one step leads to its last key level's parent.
- Walks.GetDeletes: where the caches can be relied on, which is everywhere from fresh caches on, as in a copied tree; where old caches were left over, on the active part if there are no ties.
