# A verified model of the private library

The repository keeps one person's audiobook library on one machine. A Python connector pages
through a provider's library and normalizes it; a Node service reconciles each capture with
what it already has, seals the result and stores it beside the owner's own reviews; a local
API guards the destructive operations; a browser view queries the library page by page. This
project models the state-keeping middle of that program and proves what it promises, over
every input, every run and every interleaving.

## How it is organized

| modules | what they model |
|---|---|
| `Texts`, `Feedback`, `Library` | text order, splitting and joining; revision tokens; the records of a snapshot |
| `Validation`, `Drafts` | validating a review and editing a saved one |
| `Reviews`, `ReviewProtocol`, `ReviewLimit`, `ReviewReads`, `ReviewSaves` | the review table, saves that suspend twice interleaved with deletes and listings, and which of them go through |
| `Reconcile`, `ReconcileLaws`, `ReconcileRuns`, `ReconcileById` | folding captures into a retained library |
| `Reopening` | the stored library as the next sync validates it, and what that changes |
| `Merge`, `LiveSnapshot` | the entry merge and the acceptance of a connector's snapshot |
| `Storage`, `Ownership`, `Sync`, `SyncRecords`, `SyncRuns`, `SyncImports`, `Stores`, `Service` | rows, anchor, suppression marker and last-import file under syncs that may stop anywhere, and the objects that perform the steps |
| `Migration`, `MigrationLaws`, `MigrationRuns` | schema migration, its planner, interruption and recovery |
| `Auth`, `AuthRuns` | sessions and single-use confirmations |
| `Capture`, `Normalize`, `NormalizeLaws`, `NormalizeIdentity`, `NormalizeCredits` | paging and normalizing on the connector's side |
| `Paging`, `Ordering`, `Grouping`, `Queries`, `Labels` | the library query |
| `Lock`, `LockLaws`, `LockReading` | the dependency lock, its printer and its two readers |
| `Trust`, `TrustPaths` | the bounded scan and strip of nested values |
| `Base64`, `Custody` | purpose-bound sealing |

Code that updates fields or runs a loop is a class or a method, and its `ensures` equates the
new state with a specification function; the laws are lemmas about those functions. An
operation that awaits is split at its awaits, and a run is any sequence of such steps.

## What turned out differently from what the code or its comments suggest

Each point names the lemmas that show it: a concrete input or run, the exact condition under
which the code does what is expected, or both.

- A review save in flight across an erasure commits under no anchor. It keeps ownership
  exactly when the anchor, at the commit, names its account
  (`Ownership.FirstSaveOutlivesErasure`, `Ownership.LateCommitKeepsOwnedExactly`).
- The limit of 20000 records per account is read before the last await, so overlapping first
  saves can pass it: exactly when one commits at the limit, by at most k - 1 if k overlap,
  and by that much for every k (`ReviewLimit.LimitIsPassedExactly`,
  `ReviewLimit.LimitHoldsUpToOverlap`, `ReviewLimit.OverlappingFirstSavesPassTheLimit`).
- A listing of reviews reads its ids once and its rows one by one, so it can show rows
  together that the table never held together, exactly when a listed row is written before
  its own read (`ReviewReads.ListingIsOneMomentExactly`, `ReviewReads.ListingCanBeTorn`).
- An automatic sync already in flight when the owner deletes restores the snapshot
  (`SyncRuns.SyncInFlightRestoresSnapshot`). After an erasure a snapshot can return before a
  manual sync starts exactly when a sync is in flight that a save would still accept
  (`SyncRuns.ErasureIsUndoneExactly`, `Sync.NoSnapshotReturnsUnasked`).
- A commit can move the snapshot and not be answered as a success, exactly when a marker on
  disk cannot be lifted afterwards or the process ends first
  (`Sync.FailedStepKeepsLibraryExactly`, `SyncRuns.SyncCanCommitUnawares`).
- A last-import record that survives its erasure can be read as the record of the next
  import, because generations start again; after each commit exactly the condition is stated
  (`SyncRuns.StaleRecordIsReadBack`, `SyncRecords.CommitIsHonestExactly`).
- Replaying a capture is exact if and only if the first pass orphaned nobody; a connector's
  captures always qualify (`ReconcileRuns.ReplayIsIdempotentExactly`,
  `ReconcileRuns.ReplayCanDropPeople`, `NormalizeLaws.EmittedSnapshotReplaysExactly`).
- Opening the stored library for the next sync stamps its entries anew, so through the service
  a replay also changes the provenance and sync time of entries retained from older
  observations, exactly those; everything else is as if nothing had been reopened
  (`Reopening.ReopenedReplayIsExactly`, `Reopening.ReopenedReplayCanRestamp`,
  `Reopening.ServiceKeepsTheLibrary`).
- The constructor's comment says that a refused container is left as found. An unmarked
  current container whose reviews are not anchored is marked before it is refused
  (`MigrationRuns.RefusedOpenLeavesTheFileExactly`,
  `MigrationRuns.RefusedOpenCanMarkTheFile`).
- For a marked container of the wrong shape the run reports `schema-partially-created-refused`
  where the plan says `schema-unknown-refused`; for every other refusal the two agree
  (`MigrationLaws.RefusalIsPredictedExactly`, `MigrationLaws.RefusalCanBeMispredicted`).
- A row's author names are sorted on their own while its author ids keep their order, and
  author groups pair the two by position; the pairing is right exactly when the names were
  already in text order (`Labels.PeopleAreNamedRightExactly`, `Labels.PeopleCanBeMisnamed`).
- The recording script loses a pin exactly when its name ends in `--hash`
  (`LockReading.RegeneratingIsAFixedPointExactly`).
- The editor changes a saved review exactly when one of its tags contains a comma
  (`Drafts.UneditedSaveIsNoOpExactly`).
- An untagged envelope whose body happens to begin like a purpose tag is not read as a legacy
  one (`Custody.LegacyOpensExactly`).

## Assumptions

Hypotheses are parameters or `requires` clauses, never axioms.

- Sealing in the stores is symbolic: a blob is its content. In `Custody` the protector and the
  JSON serializer are given functions that undo themselves. SHA-256 is symbolic. In
  `Auth` a digest is what it was computed from, so it is injective there, and the comparison of
  tokens and nonces in `AuthRuns` rests on that; in `Normalize` it is any function, and only
  `NormalizeIdentity` assumes it injective.
- Session ids and nonces may be any texts. Each law over runs of `AuthRuns` names what it needs
  of the clock and of nonces: a clock that never goes back, and nonces not issued twice.
- Unicode normalization and case folding are given functions. Of normalization, `Validation`
  assumes idempotence and stability under taking parts (Unicode Standard Annex 15) and that it makes
  no comma. Trimming is trimming of ASCII spaces.
- Instants are integers. A clock reading that the code would reject is modelled as absent.
- A transaction is all-or-nothing; SQLite tables are sequences or maps of rows.

## Model

| member | source | states |
|---|---|---|
| `ReviewProtocol.SavesAreLinearizable` | code/Alpha0.x/src/store/feedback-store.js:135-191 | in every interleaving of saves and deletes, each save that wrote, found nothing to change or met a conflict has one step between its begin and its answer at which a store that runs saves whole would have given that answer |
| `ReviewProtocol.RunRefinesSequentialStore` | code/Alpha0.x/src/store/feedback-store.js:135-215 | whatever the interleaving, the table shows what that sequential store shows after the same history |
| `ReviewProtocol.RefusedBeginIsAtomicConflict` | code/Alpha0.x/src/store/feedback-store.js:138-140 | a save refused at its first token check is the sequential answer at that moment |
| `ReviewProtocol.CommitIsAtomicSave` | code/Alpha0.x/src/store/feedback-store.js:168-190 | a commit that passes the re-check does to the readable store what a whole save does |
| `ReviewProtocol.DeleteIsAtomic` | code/Alpha0.x/src/store/feedback-store.js:197-215 | a delete is one sequential delete |
| `ReviewProtocol.CommitIsBasedOnPresentRow` | code/Alpha0.x/src/store/feedback-store.js:168-184 | a committed save was based on the row immediately before its commit and raised its generation by exactly one |
| `ReviewProtocol.RowsOnlyAdvance` | code/Alpha0.x/src/store/feedback-store.js:135-215 | along a run generations never fall and a row seen again at the same generation is the same row |
| `ReviewProtocol.DeletedTokensStayDead` | code/Alpha0.x/src/store/feedback-store.js:197-215 | no token current at or before a delete is ever current again, whatever random parts are drawn |
| `ReviewProtocol.CreatedAtIsFixed` | code/Alpha0.x/src/core/feedback.js:179-207 | `createdAt` stays fixed from a creation to the next delete |
| `ReviewProtocol.NextKeepsInv` | code/Alpha0.x/src/store/feedback-store.js:135-215 | every step keeps tables well formed and suspended saves based on present or older rows |
| `Feedback.TokenNamesGeneration` | code/Alpha0.x/src/store/feedback-store.js:35-37 | a token names its generation, so tokens of different generations differ without the random part |
| `Reviews.OpenStoredRow` | code/Alpha0.x/src/store/feedback-store.js:79-99 | opening a row the store wrote never fails and yields a record exactly when the row is active |
| `Reviews.MovedPayloadIsRefused` | code/Alpha0.x/src/store/feedback-store.js:89-98 | a payload moved to another key or beside another generation opens only at its own |
| `ReviewLimit.LimitHoldsUpToOverlap` | code/Alpha0.x/src/store/feedback-store.js:148-150 | with at most k first saves of an account between limit check and commit, it never holds more than the limit plus k - 1 records |
| `ReviewLimit.OverlappingFirstSavesPassTheLimit` | code/Alpha0.x/src/store/feedback-store.js:148-185 | that bound is reached for every k: from one record below the limit, any k overlapping first saves of new books end at the limit plus k - 1 |
| `ReviewLimit.LimitIsPassedExactly` | code/Alpha0.x/src/store/feedback-store.js:148-185 | from at most the limit, a step ends above it exactly when it commits a first save of an account that holds the limit already |
| `ReviewReads.GenerationsCountWrites` | code/Alpha0.x/src/store/feedback-store.js:135-215 | along a run the generation of a row counts the accepted writes of its key |
| `ReviewReads.GetFailsExactly` | code/Alpha0.x/src/store/feedback-store.js:101-113 | reading a row the store wrote fails only if its sealer does, and shows a record exactly when the row is not deleted |
| `ReviewReads.ListedRowIsRead` | code/Alpha0.x/src/store/feedback-store.js:115-122 | a listed row is still there when its turn comes, later by exactly the writes in between, with a record exactly unless it was deleted |
| `ReviewReads.ListingIsOneMomentExactly` | code/Alpha0.x/src/store/feedback-store.js:115-122 | a listing is the table at one moment, the reading of its ids, exactly when no listed row is written before its own read |
| `ReviewReads.ListingCanBeTorn` | code/Alpha0.x/src/store/feedback-store.js:115-122 | otherwise it can show two rows together that the table never held together |
| `ReviewSaves.UndisturbedSaveGoesThrough` | code/Alpha0.x/src/store/feedback-store.js:135-191 | from every reachable state a save run to its end under the present token, with a working sealer and clock, edits the review, or creates it below the limit, or finds nothing to change; then that very record is read, and no other row differs |
| `ReviewSaves.BeginsExactly` | code/Alpha0.x/src/store/feedback-store.js:135-142 | a save suspends exactly under a valid id, a valid input and the token of the present row; otherwise the first of these that fails is the answer |
| `ReviewSaves.FinishesExactly` | code/Alpha0.x/src/store/feedback-store.js:142-162 | between its awaits a save is refused by a failing sealer over a review it edits, at the limit if it creates one, or by an unreadable clock, and by nothing else |
| `ReviewSaves.CommitsExactly` | code/Alpha0.x/src/store/feedback-store.js:163-190 | a sealed save writes exactly if its blob has an accepted size and the row still has the token it was based on |
| `ReviewSaves.DeletesExactly` | code/Alpha0.x/src/store/feedback-store.js:197-215 | a delete goes through exactly under the token of a row that exists; the tombstone under the next token is what is then read, and nothing else changes |
| `Stores.PrivateFeedbackStore.constructor` | code/Alpha0.x/src/store/feedback-store.js:46-52 | a store bound to one account key and database |
| `Stores.PrivateFeedbackStore.Count` | code/Alpha0.x/src/store/feedback-store.js:124-129 | the number of active records of the account |
| `Stores.PrivateFeedbackStore.BeginSave` | code/Alpha0.x/src/store/feedback-store.js:135-142 | a save up to its first await, as the protocol step, changing nothing |
| `Stores.PrivateFeedbackStore.FinishOpen` | code/Alpha0.x/src/store/feedback-store.js:142-162 | a save between its awaits: no-op, limit, or the record to seal |
| `Stores.PrivateFeedbackStore.CommitSave` | code/Alpha0.x/src/store/feedback-store.js:163-190 | the commit transaction: the whole new table, or the old one after a conflict or a failing statement |
| `Stores.PrivateFeedbackStore.Delete` | code/Alpha0.x/src/store/feedback-store.js:197-215 | the tombstone written exactly under the current token, with its token and generation returned, or nothing after a failing statement |
| `Stores.PrivateFeedbackStore.Purge` | code/Alpha0.x/src/store/feedback-store.js:248-258 | every row of the account is gone and no other row changes, or none at all if the transaction fails |
| `Validation.ValidateTags` | code/Alpha0.x/src/core/feedback.js:130-148 | computes the specified tags: first display of each fold key, in key order, or the first error |
| `Validation.ValidTagsAreCanonical` | code/Alpha0.x/src/core/feedback.js:130-148 | returned tags are normalized, trimmed, bounded and strictly ordered by fold key, and validate to themselves |
| `Validation.CanonicalTagsAreFixed` | code/Alpha0.x/src/core/feedback.js:130-148 | every canonical tag list validates to itself |
| `Validation.ValidationIsIdempotent` | code/Alpha0.x/src/core/feedback.js:107-170 | what input validation returned, it returns again, ratings and comment included |
| `Validation.TagsComeBackExactly` | code/Alpha0.x/src/core/feedback.js:130-148 | exactly the first tag of every fold key comes back, as its display |
| `Validation.TagsAreValidExactly` | code/Alpha0.x/src/core/feedback.js:130-148 | tags are accepted exactly if each is one and at most twenty keys remain |
| `Validation.TagIsRefusedExactly` | code/Alpha0.x/src/core/feedback.js:134-141 | a tag is one exactly if it is a text of 1 to 40 characters without controls once normalized and trimmed |
| `Validation.RatingIsValidExactly` | code/Alpha0.x/src/core/feedback.js:107-113 | a rating is accepted exactly if it is one of the ten half stars, or none, and kept |
| `Validation.CommentIsValidExactly` | code/Alpha0.x/src/core/feedback.js:115-124 | a comment is accepted exactly without controls and up to 4000 characters once normalized, and kept so; an empty one is none |
| `Drafts.TagsSurviveTheEditor` | code/Alpha0.x/ui/js/private-store.js:157-178 | trimmed non-empty tags without a comma are recovered by split and trim from their joined text |
| `Drafts.UneditedDraftIsFaithfulExactly` | code/Alpha0.x/ui/js/private-store.js:157-178 | a saved record loaded and read back unedited validates to its own payload exactly when no tag contains a comma |
| `Drafts.UneditedSaveIsNoOpExactly` | code/Alpha0.x/src/store/feedback-store.js:142-147 | saving it is a no-op in the store, same token and generation, exactly under that condition |
| `Drafts.EditedDraftIsSaved` | code/Alpha0.x/ui/js/private-store.js:157-178 | each rating a reader enters is saved as the one it was shown as, and an empty comment as none |
| `Drafts.CommaSplitsATag` | code/Alpha0.x/ui/js/private-store.js:164-176 | the tag `a,b` comes back as two tags |
| `Reconcile.AssertReferentialIntegrity` | code/Alpha0.x/src/sync/reconcile.js:77-94 | none exactly if every entry has its book and every author, narrator, genre, theme and series is there; otherwise the first missing reference in check order |
| `Reconcile.WholeByField` | code/Alpha0.x/src/sync/reconcile.js:77-94 | a snapshot is whole exactly if every entry has its book and every author, narrator, genre, theme and non-empty series of a book is in the catalog |
| `Reconcile.IntegrityErrorByField` | code/Alpha0.x/src/sync/reconcile.js:77-94 | an entry without its book is reported first; otherwise the first book with a missing reference, its people before its facets |
| `ReconcileById.PromotedEntries` | code/Alpha0.x/src/sync/reconcile.js:129-159 | field by field: a listed book as the capture has it, seen now; an unlisted one as it was, flagged, last seen at its last proof; and no others |
| `ReconcileById.PromotedBooks` | code/Alpha0.x/src/sync/reconcile.js:143-166 | the capture's books, and of the previous ones exactly those of retained entries that it lacks |
| `ReconcileById.PromotedPeople` | code/Alpha0.x/src/sync/reconcile.js:144-169 | the capture's people, and of the previous ones exactly the authors and narrators of retained books |
| `ReconcileById.PromotedFacets` | code/Alpha0.x/src/sync/reconcile.js:145-174 | the capture's facets, and of the previous ones exactly the genres, themes and series of retained books |
| `ReconcileById.PromotedReferencesResolve` | code/Alpha0.x/src/sync/reconcile.js:188 | whatever is promoted, every author, narrator, genre, theme and series it names is there |
| `ReconcileById.LibraryReferencesResolve` | code/Alpha0.x/src/sync/reconcile.js:104-198 | and so it is over every run of captures |
| `ReconcileById.PromotedReport` | code/Alpha0.x/src/sync/reconcile.js:129-165 | a book is reported as added, updated, reappeared or missing exactly by whether the capture lists it and whether the library knew it or missed it |
| `ReconcileById.PromotedInOrder` | code/Alpha0.x/src/sync/reconcile.js:178-194 | entries, books, people, facets and every list of the report come in the order of ids, and the rest of the capture is kept |
| `Reconcile.ReconcileSnapshot` | code/Alpha0.x/src/sync/reconcile.js:104-198 | computes the specified reconciliation: the retained library, the report, or the error |
| `Reconcile.ListCandidate` | code/Alpha0.x/src/sync/reconcile.js:129-142 | the first loop: refreshed entries and their three reports, or a repeated entry |
| `Reconcile.RetainMissing` | code/Alpha0.x/src/sync/reconcile.js:148-176 | the second loop, in any visiting order: retained entries, their books and references |
| `Reconcile.RetainEntry` | code/Alpha0.x/src/sync/reconcile.js:148-175 | one retained entry and everything it points at |
| `Reconcile.RetainCatalog` | code/Alpha0.x/src/sync/reconcile.js:160-174 | the catalog records a retained book points at |
| `Reconcile.Promote` | code/Alpha0.x/src/sync/reconcile.js:178-198 | sorting, the final check and the report lists |
| `Library.IndexById` | code/Alpha0.x/src/sync/reconcile.js:71-75 | the map of records by id, the last of an id winning |
| `Library.LastRecordWins` | code/Alpha0.x/src/sync/reconcile.js:71-75 | of several records of one id the last is the one indexed |
| `Library.IndexOfRearranged` | code/Alpha0.x/src/sync/reconcile.js:71-75 | records of distinct ids index the same in any order |
| `ReconcileLaws.FinalCheckFailsExactly` | code/Alpha0.x/src/sync/reconcile.js:188 | past the first check reconciliation fails exactly when the previous snapshot cannot support what must be retained from it |
| `ReconcileLaws.WholePreviousNeverFails` | code/Alpha0.x/src/sync/reconcile.js:77-94 | with a whole previous snapshot the final check is dead, and the promoted snapshot is whole again |
| `ReconcileLaws.ResultIndex` | code/Alpha0.x/src/sync/reconcile.js:116-186 | the promoted snapshot by id: candidate entries refreshed, missing ones retained with what they point at |
| `ReconcileLaws.ReportPartitionsEntries` | code/Alpha0.x/src/sync/reconcile.js:126-194 | added, updated, reappeared and missing list every resulting entry exactly once, and their lengths add up to `entryCount` |
| `ReconcileLaws.InputOrderIsImmaterial` | code/Alpha0.x/src/sync/reconcile.js:178-186 | rearranging any input array changes neither success nor result, with or without a previous snapshot |
| `ReconcileRuns.ReplayIsIdempotentExactly` | code/Alpha0.x/src/sync/reconcile.js:148-176 | replaying a capture returns the same snapshot exactly when the first pass orphaned nobody it had retained |
| `ReconcileRuns.ReplayStabilizes` | code/Alpha0.x/src/sync/reconcile.js:148-176 | a second replay always returns the first replay |
| `ReconcileRuns.SameIdsReplayExactly` | code/Alpha0.x/src/sync/reconcile.js:104-198 | a capture whose books and entries have the same ids replays exactly |
| `ReconcileRuns.ReplayCanDropPeople` | code/Alpha0.x/src/sync/reconcile.js:161-169 | otherwise the people of an older version of a book can be retained once and dropped on the next pass |
| `ReconcileRuns.LibraryIsAlwaysWhole` | code/Alpha0.x/src/sync/reconcile.js:104-198 | over every run exactly the good captures are promoted and the library is whole at all times |
| `ReconcileRuns.EntriesCarryTheirHistory` | code/Alpha0.x/src/sync/reconcile.js:129-159 | over every run the library holds exactly the books ever listed; `lastSeenAt` is the time of the last listing and `missingFromSource` holds exactly for books the latest capture lacks |
| `ReconcileRuns.LibraryNeverShrinks` | code/Alpha0.x/src/sync/reconcile.js:148-176 | no book ever leaves the library |
| `Reopening.Reopen` | code/Alpha0.x/src/sync/private-alpha-service.js:665-671 | computes the stored snapshot as the next sync validates and takes it, or the refusal |
| `Reopening.ReopensExactly` | code/Alpha0.x/src/sync/live-snapshot.js:50-69 | a stored snapshot is accepted again exactly when no id repeats, every reference is present and every entry has its book; only its entries change, each stamped with the private source and the time of its snapshot |
| `Reopening.PromotedSnapshotReopens` | code/Alpha0.x/src/sync/private-alpha-service.js:665-671 | whatever reconciliation promotes is accepted when it is opened again |
| `Reopening.StampsDecideNothing` | code/Alpha0.x/src/sync/reconcile.js:104-198 | previous snapshots alike but for provenance and sync times of their entries give the same success, the same report and alike results |
| `Reopening.ServiceKeepsTheLibrary` | code/Alpha0.x/src/sync/private-alpha-service.js:569-600 | over every run of captures, each reconciled with the reopened last result, the library is the one of reconciliation alone but for those stamps |
| `Reopening.ReopenedReplayIsExactly` | code/Alpha0.x/src/sync/private-alpha-service.js:584-600 | replaying a capture against the reopened result gives the same snapshot exactly when nothing was orphaned and every retained entry was already stamped with this observation |
| `Reopening.ReopenedReplayStabilizes` | code/Alpha0.x/src/sync/private-alpha-service.js:584-600 | a second such replay is always the first |
| `Reopening.ReopenedReplayCanRestamp` | code/Alpha0.x/src/core/model.js:266-296 | a capture and a library for which reconciliation alone replays exactly and the reopened replay does not |
| `Merge.MergeLibrarySnapshot` | code/Alpha0.x/src/core/model.js:359-411 | computes the specified merge |
| `Merge.MergeIsIdempotent` | code/Alpha0.x/src/core/model.js:354-411 | merging the same input again gives the same entries and reports none as new |
| `Merge.ReportPartitionsDomain` | code/Alpha0.x/src/core/model.js:362-409 | the domain is the old books and the accepted ones; added, updated, unchanged and missing partition it |
| `Merge.AcceptedOrRejected` | code/Alpha0.x/src/core/model.js:364-395 | accepted and rejected records add up to the input |
| `Merge.FirstIsAccepted` | code/Alpha0.x/src/core/model.js:375-394 | the first well-formed record of an id is accepted, normalized |
| `Merge.AcceptedIsFirst` | code/Alpha0.x/src/core/model.js:375-394 | every accepted record is the first well-formed one of its id |
| `Merge.RejectedAreTheOthers` | code/Alpha0.x/src/core/model.js:367-378 | rejections are positional, ordered, and name exactly the other records |
| `Merge.RejectedForAReason` | code/Alpha0.x/src/core/model.js:364-377 | a rejection says what is wrong with its record, and of a well-formed one that it repeats another |
| `Merge.MergedById` | code/Alpha0.x/src/core/model.js:379-404 | the merged entries by id |
| `Merge.AcceptedByField` | code/Alpha0.x/src/core/model.js:364-395 | an accepted record gives its book its facts and times, synced now; unless the book already said the same it is stamped anew |
| `Merge.UnnamedByField` | code/Alpha0.x/src/core/model.js:397-404 | a book no record names is kept as it was, flagged as missing and synced now, and no other book comes in |
| `Merge.ReportByField` | code/Alpha0.x/src/core/model.js:362-404 | a book is added exactly if it is named and was not known, missing exactly if it was known and is not named |
| `Merge.KnownIsReported` | code/Alpha0.x/src/core/model.js:379-392 | a known book is reported unchanged exactly if it already said the same, and updated otherwise |
| `LiveSnapshot.BuildCatalog` | code/Alpha0.x/src/core/model.js:301-333 | computes the catalog indexes or the first repeated id or missing reference |
| `LiveSnapshot.ValidateLiveSnapshot` | code/Alpha0.x/src/sync/live-snapshot.js:50-69 | computes the validated merge or the refusal |
| `LiveSnapshot.AcceptsExactly` | code/Alpha0.x/src/sync/live-snapshot.js:50-69 | a snapshot passes exactly when no id repeats, every record is well formed and every reference of books and entries is present |
| `LiveSnapshot.EmittedSnapshotIsAccepted` | code/Alpha0.x/connector/atnr_connector/normalize.py:637-650 | whatever normalization emits, the core accepts |
| `Stores.EncryptedSnapshotStore.Save` | code/Alpha0.x/src/store/encrypted-snapshot-store.js:159-243 | snapshot, sync state and anchor together, or all rows as before after a failing statement; the marker is lifted after the commit, and the answer is a failure if it cannot be or the process ends first |
| `Stores.EncryptedSnapshotStore.RecordAttempt` | code/Alpha0.x/src/store/encrypted-snapshot-store.js:150-157 | only the attempt time changes |
| `Stores.EncryptedSnapshotStore.RecordFailure` | code/Alpha0.x/src/store/encrypted-snapshot-store.js:252-264 | only the attempt time and error code change, never the success |
| `Stores.EncryptedSnapshotStore.RecordAccountAnchor` | code/Alpha0.x/src/store/encrypted-snapshot-store.js:291-305 | the anchor is confirmed, or refused for another account |
| `Stores.EncryptedSnapshotStore.DeleteLocalSnapshot` | code/Alpha0.x/src/store/encrypted-snapshot-store.js:410-434 | the import goes, reviews stay, the anchor stays with them, and the marker is written last; nothing changes if a statement fails |
| `Stores.EncryptedSnapshotStore.PurgeAllLocalData` | code/Alpha0.x/src/store/encrypted-snapshot-store.js:450-478 | every row is gone and the marker is written last; nothing changes if a statement fails |
| `Stores.EncryptedSnapshotStore.ClearLocalDataSuppression` | code/Alpha0.x/src/store/encrypted-snapshot-store.js:364-368 | the marker is gone exactly when this reports so |
| `Ownership.NextKeepsOwned` | code/Alpha0.x/src/store/encrypted-snapshot-store.js:159-243 | every whole operation keeps all reviews and the snapshot with the one anchored account |
| `Ownership.RunsKeepOwned` | code/Alpha0.x/src/store/schema.js:228-253 | so does every run from a new container |
| `Ownership.ViolationIsUnanchoredReview` | code/Alpha0.x/src/store/schema.js:240-253 | the explicit check decides exactly whether every review belongs to the anchored account |
| `Ownership.DeletingTheImportStrandsNothing` | code/Alpha0.x/src/store/encrypted-snapshot-store.js:398-420 | after deleting the import the same reviews stand under the same anchor |
| `Ownership.LateCommitKeepsOwnedExactly` | code/Alpha0.x/src/store/feedback-store.js:168-185 | a suspended save that commits keeps ownership exactly when the anchor at that moment names its account |
| `Ownership.FirstSaveOutlivesErasure` | code/Alpha0.x/src/store/feedback-store.js:172-184 | a first save suspended across a purge, or across a deletion that drops the anchor, commits under no anchor |
| `Service.PrivateAlphaService.ResolveAccountJoin` | code/Alpha0.x/src/sync/private-alpha-service.js:357-369 | quarantine and its time exactly from the stored account and the one that answers; nothing changes if nobody answers |
| `Service.PrivateAlphaService.StartSync` | code/Alpha0.x/src/sync/private-alpha-service.js:523-546 | joins a running sync, or refuses an automatic one under suppression |
| `Service.PrivateAlphaService.ResolveJoin` | code/Alpha0.x/src/sync/private-alpha-service.js:553-567 | quarantine before anything is written; then the manual lift and the attempt |
| `Service.PrivateAlphaService.ReceiveCapture` | code/Alpha0.x/src/sync/private-alpha-service.js:569-589 | every refusal between fetch and reconciliation, or the result to seal |
| `Service.PrivateAlphaService.CommitSync` | code/Alpha0.x/src/sync/private-alpha-service.js:590-622 | save and record, or the failure |
| `Service.PrivateAlphaService.FailSync` | code/Alpha0.x/src/sync/private-alpha-service.js:568-638 | a failure is recorded and nothing else changes |
| `Service.PrivateAlphaService.RecordLastImport` | code/Alpha0.x/src/sync/private-alpha-service.js:461-489 | the record file holds the measured counts, or is untouched |
| `Service.PrivateAlphaService.LastImportRecord` | code/Alpha0.x/src/sync/private-alpha-service.js:430-445 | what may honestly be claimed of the stored snapshot |
| `Service.PrivateAlphaService.DeleteLocalSnapshot` | code/Alpha0.x/src/sync/private-alpha-service.js:879-896 | refused under quarantine or without a verdict of the last two minutes; otherwise rows, marker, record |
| `Service.PrivateAlphaService.PurgeAllLocalData` | code/Alpha0.x/src/sync/private-alpha-service.js:820-840 | the same for everything, refused exactly by its own account join over the stored account and the one that answers |
| `Sync.FailedSyncKeepsLibrary` | code/Alpha0.x/src/sync/private-alpha-service.js:539-638 | from its start to its failure a sync leaves the snapshot, its generation and the last success as they were, whatever else it did |
| `Sync.FailedStepKeepsLibraryExactly` | code/Alpha0.x/src/store/encrypted-snapshot-store.js:233-242 | a step that does not succeed leaves them exactly unless the rows were committed and then a marker on disk could not be lifted, or the process ended |
| `Sync.NoSnapshotReturnsUnasked` | code/Alpha0.x/src/sync/private-alpha-service.js:539-561 | after an erasure with no sync in flight there is no snapshot, and automatic syncs are refused, until a manual sync starts, across crashes and failures |
| `SyncRuns.SyncInFlightRestoresSnapshot` | code/Alpha0.x/src/sync/private-alpha-service.js:544-546 | a run: import, automatic sync, the owner deletes while it waits for its seal, and its commit saves and lifts the suppression |
| `SyncRuns.ErasureIsUndoneExactly` | code/Alpha0.x/src/sync/private-alpha-service.js:539-638 | after any completed erasure some continuation without a manual start brings a snapshot back exactly when a sync is in flight whose account, marketplace and size a save still accepts |
| `SyncRuns.SyncCanCommitUnawares` | code/Alpha0.x/src/store/encrypted-snapshot-store.js:233-242 | a run in which the snapshot moves and the sync is answered as failed |
| `SyncRuns.StoredLibraryIsWhole` | code/Alpha0.x/src/sync/private-alpha-service.js:569-610 | over every run of syncs, erasures, crashes and failures the stored library is referentially whole and can be opened again |
| `SyncRuns.StoredLibraryNeverStopsASync` | code/Alpha0.x/src/sync/private-alpha-service.js:584-590 | over every such run what is stored never refuses a sync: a capture is reconciled exactly when it is acceptable itself |
| `SyncImports.RecordsTellTheImport` | code/Alpha0.x/src/sync/private-alpha-service.js:430-489 | over every run from a state with nothing imported, if erasures remove the record or commits write it, a record read back counts, over the libraries themselves, the new, known, reappeared and missing books of the import whose result is stored |
| `SyncImports.ReportTells` | code/Alpha0.x/src/sync/reconcile.js:126-194 | the counts of a reconciliation are those of the books the capture lists or lacks against the library it met |
| `SyncImports.StartsExactly` | code/Alpha0.x/src/sync/private-alpha-service.js:544-546 | a sync starts exactly if none is running and it is the owner's or nothing was suppressed |
| `SyncImports.JoinsExactly` | code/Alpha0.x/src/sync/private-alpha-service.js:553-567 | it passes the account join exactly if the account fits and a suppression was lifted where the owner asked; then its attempt is on record |
| `SyncImports.CaptureIsTakenExactly` | code/Alpha0.x/src/sync/private-alpha-service.js:568-589 | over a sound store a capture is taken exactly if it arrived, of the right account, valid, of the announced size, not declared incomplete, with the stored library unsealed, and complete in itself |
| `SyncImports.RefusedCaptureIsExplained` | code/Alpha0.x/src/sync/private-alpha-service.js:568-589 | a capture that is not taken fails with a code that is true of it |
| `SyncImports.SyncSucceedsExactly` | code/Alpha0.x/src/sync/private-alpha-service.js:590-600 | a result is answered as a success exactly if it is sealed as asked, account, marketplace and size are ones the store takes, its statements run and a marker on disk is lifted |
| `SyncImports.SuccessStoresTheLibrary` | code/Alpha0.x/src/store/encrypted-snapshot-store.js:159-243 | field by field: after a success the rows hold the reconciled library under the next generation, the anchor and the success of this moment, and the record, if it could be written, its counts |
| `SyncImports.FailuresAreRecorded` | code/Alpha0.x/src/store/encrypted-snapshot-store.js:252-264 | every failed sync leaves its code and its time |
| `SyncImports.ErasesExactly` | code/Alpha0.x/src/store/encrypted-snapshot-store.js:410-478 | what an erasure leaves: no snapshot, no sync state; of a deletion the reviews and, while there are any, their anchor; of a purge nothing |
| `Sync.ManualSyncLiftsSuppressionFirst` | code/Alpha0.x/src/sync/private-alpha-service.js:559-561 | a manual sync lifts the suppression before its fetch, whatever becomes of it |
| `SyncRecords.RecordsAreHonest` | code/Alpha0.x/src/sync/private-alpha-service.js:87-121 | if every erasure removes the record, every record ever read back is null or exactly the counts that produced the stored snapshot |
| `SyncRecords.WrittenRecordsAreHonest` | code/Alpha0.x/src/sync/private-alpha-service.js:430-504 | if every commit writes its record, the same holds whatever an erasure leaves behind |
| `SyncRecords.CommitIsHonestExactly` | code/Alpha0.x/src/sync/private-alpha-service.js:605-610 | after every commit that moves the snapshot the record read back is honest exactly if the sync succeeded and the record was written, or no stale record was waiting |
| `SyncRecords.AcceptedSaveIsRecordable` | code/Alpha0.x/src/sync/private-alpha-service.js:461-489 | whenever the save is accepted, its counts are valid to record |
| `SyncRuns.StaleRecordIsReadBack` | code/Alpha0.x/src/sync/private-alpha-service.js:495-504 | a run from a new container to a dishonest record: import, delete without removing the record, import again without writing one |
| `Auth.LocalApiAuth.constructor` | code/Alpha0.x/src/security/local-api-auth.js:136-139 | no session, no confirmation, no mint |
| `Auth.LocalApiAuth.Invalidate` | code/Alpha0.x/src/security/local-api-auth.js:150-154 | every session and confirmation is gone under the new generation |
| `Auth.LocalApiAuth.InvalidatePending` | code/Alpha0.x/src/security/local-api-auth.js:165-167 | every confirmation is gone and sessions stay |
| `Auth.LocalApiAuth.DropExpired` | code/Alpha0.x/src/security/local-api-auth.js:181-183 | exactly the unexpired sessions stay |
| `Auth.LocalApiAuth.Create` | code/Alpha0.x/src/security/local-api-auth.js:179-197 | the whole new state: minted, or full |
| `Auth.LocalApiAuth.Verify` | code/Alpha0.x/src/security/local-api-auth.js:205-225 | the verdict and the touched or dropped session |
| `Auth.LocalApiAuth.PruneConfirmations` | code/Alpha0.x/src/security/local-api-auth.js:258-265 | exactly the live confirmations stay |
| `Auth.LocalApiAuth.Issue` | code/Alpha0.x/src/security/local-api-auth.js:231-256 | the refusal, or the one standing confirmation of its key |
| `Auth.LocalApiAuth.Consume` | code/Alpha0.x/src/security/local-api-auth.js:268-288 | the verdict, and the record gone whatever it is |
| `AuthRuns.MintsAreRateLimited` | code/Alpha0.x/src/security/local-api-auth.js:179-197 | in any run with a monotone clock at most 16 sessions are minted in any minute and at most 64 are held |
| `AuthRuns.MintIsGrantedExactly` | code/Alpha0.x/src/security/local-api-auth.js:179-197 | over any run a session is minted exactly if fewer than 16 were in the last minute and fewer than 64 held ones are still good |
| `AuthRuns.IssueIsGrantedExactly` | code/Alpha0.x/src/security/local-api-auth.js:231-256 | a confirmation is issued exactly for erasing feedback under a resource of its own, or for another confirmable action without one |
| `AuthRuns.SessionVerifiesExactly` | code/Alpha0.x/src/security/local-api-auth.js:199-225 | a session verifies exactly while minted since the last binding invalidation, at most 12 hours ago, and active within the hour; with CSRF, under the minted token |
| `AuthRuns.ConsumptionSucceedsExactly` | code/Alpha0.x/src/security/local-api-auth.js:231-288 | a nonce is accepted exactly if an issue for that action and resource still stands, in the same session, within 120 seconds |
| `AuthRuns.NonceIsConsumedOnce` | code/Alpha0.x/src/security/local-api-auth.js:267-288 | every issued nonce is consumed successfully at most once |
| `AuthRuns.KeyIsPair` | code/Alpha0.x/src/security/local-api-auth.js:247 | the string key stands for the pair of action and resource when no action holds a colon |
| `AuthRuns.ConfirmableActionsHaveNoColon` | code/Alpha0.x/src/security/local-api-auth.js:62 | no confirmable action does |
| `AuthRuns.KeyNeedsColonFreeActions` | code/Alpha0.x/src/security/local-api-auth.js:271 | with a colon in an action two pairs share a key |
| `Migration.Container.Exec` | code/Alpha0.x/src/store/migration.js:209-216 | one statement, unless the disk fails under it |
| `Migration.Container.Tick` | code/Alpha0.x/src/store/migration.js:202-211 | one counted operation, or the stop before it |
| `Migration.Container.ApplyStep` | code/Alpha0.x/src/store/migration.js:208-217 | the statements of one revision and its receipt |
| `Migration.Container.ApplyChain` | code/Alpha0.x/src/store/migration.js:208-222 | the whole chain and the marker, counted |
| `Migration.Container.RunStructuralMigration` | code/Alpha0.x/src/store/migration.js:182-247 | chain, marker and checks in one transaction over the whole new state |
| `Migration.Container.InitializeContainer` | code/Alpha0.x/src/store/migration.js:56-68 | structure and marker together, or nothing |
| `Migration.Container.MigrateDatabase` | code/Alpha0.x/src/store/migration.js:97-180 | every branch on marker and shape |
| `Migration.Container.Open` | code/Alpha0.x/src/store/encrypted-snapshot-store.js:86-112 | migration, the two checks, and the restored envelope |
| `MigrationLaws.MigrationFollowsPlan` | code/Alpha0.x/src/store/production-migration.js:88-158 | for every marker, shape and rows an uninterrupted run takes the action of the pure plan, with its starting revision, its report and its envelope |
| `MigrationLaws.RefusalIsPredictedExactly` | code/Alpha0.x/src/store/production-migration.js:88-158 | whatever the faults, what the plan refuses is refused untouched, for the reason the plan names exactly when no known revision is marked |
| `MigrationLaws.RefusalCanBeMispredicted` | code/Alpha0.x/src/store/migration.js:146-170 | a container marked as revision 2 in the shape of revision 1: planned as unknown, refused as partially created |
| `MigrationRuns.EnvelopeIsWrittenAsPlanned` | code/Alpha0.x/src/store/migration.js:182-192 | whatever stops the run, the rollback envelope is written exactly when the plan says and one was asked for, with the container as it was |
| `MigrationLaws.LegacyMigratesExactly` | code/Alpha0.x/src/store/migration.js:182-247 | from revision 1 it succeeds for every snapshot rows the revision could hold, with the stated container |
| `MigrationLaws.InterimMigratesExactly` | code/Alpha0.x/src/store/schema.js:173-185 | from revision 2 it succeeds exactly when the snapshot names its account and every review belongs to it |
| `MigrationLaws.StoppedExactly` | code/Alpha0.x/src/store/migration.js:200-233 | a run succeeds exactly when it would unstopped and no stop or disk failure falls on one of its operations or the commit |
| `MigrationLaws.OperationCount` | code/Alpha0.x/src/store/migration.js:83-86 | twelve operations from revision 1, four from revision 2 |
| `MigrationLaws.FirstMigration` | code/Alpha0.x/src/store/schema.js:151-165 | revision 1 to 2 cannot be refused, and its container is stated outright |
| `MigrationLaws.SecondMigration` | code/Alpha0.x/src/store/schema.js:173-185 | revision 2 to 3 is refused only by the backfill, and its container is stated outright |
| `MigrationLaws.InitializesExactly` | code/Alpha0.x/src/store/migration.js:56-68 | an empty container becomes the fresh one exactly when the disk holds |
| `MigrationRuns.MigrationIsAllOrNothing` | code/Alpha0.x/src/store/migration.js:194-233 | a refused run leaves marker, shape and rows as they were; a successful one leaves a current container with every old cell |
| `MigrationRuns.SecondRunIsNoOp` | code/Alpha0.x/src/store/migration.js:167-177 | migrating again changes nothing, whatever faults it meets |
| `MigrationRuns.InterruptedRunCanBeRepeated` | code/Alpha0.x/src/store/migration.js:202-221 | stopping before operation n interrupts exactly for n below the count, and repeating then does what the first run would have done |
| `MigrationRuns.AnchorNamesTheSnapshotAccount` | code/Alpha0.x/src/store/schema.js:167-185 | after a migration the anchor names the account of the snapshot it was filled from |
| `MigrationRuns.MigratedAnchorTells` | code/Alpha0.x/src/store/schema.js:173-185 | after a migration there is an anchor exactly if there was a snapshot, with its account and marketplace, established and confirmed when it was observed |
| `MigrationRuns.MigrationLeavesReceipts` | code/Alpha0.x/src/store/schema.js:151-185 | a receipt of every revision brought, once, in order, at the time of the run; from revision 1 the new columns are filled as stated |
| `MigrationRuns.SchemaUnexpectedIsUnreachable` | code/Alpha0.x/src/store/encrypted-snapshot-store.js:95-97 | the constructor's own shape check never fires |
| `MigrationRuns.RefusedOpenLeavesTheFileExactly` | code/Alpha0.x/src/store/encrypted-snapshot-store.js:100-111 | a refused opening leaves the file as found except that an unmarked current container is marked first, and a failed first initialization is answered with an older envelope |
| `MigrationRuns.RefusedOpenCanMarkTheFile` | code/Alpha0.x/src/store/encrypted-snapshot-store.js:86-111 | an unmarked container of the current shape with one review and no anchor is marked and then refused |
| `MigrationRuns.OpensExactly` | code/Alpha0.x/src/store/encrypted-snapshot-store.js:86-112 | exactly which containers open, and that they are then current and owned |
| `Capture.CollectLibraryPages` | code/Alpha0.x/connector/atnr_connector/service.py:183-263 | computes the specified collection |
| `Capture.TakePage` | code/Alpha0.x/connector/atnr_connector/service.py:211-247 | one page: refused, completing, or one of many |
| `Capture.ScanPage` | code/Alpha0.x/connector/atnr_connector/service.py:225-236 | the item loop: the ids seen so far, or the first refusal |
| `Capture.CollectionSucceedsExactly` | code/Alpha0.x/connector/atnr_connector/service.py:209-263 | for any source it succeeds exactly when some page within the cap completes it: full pages, a short last one, valid distinct ids, bytes within the limit; and returns those pages in order |
| `Capture.StopsForAReason` | code/Alpha0.x/connector/atnr_connector/service.py:209-263 | a collection that stops does so at the first page it refuses, for that page's reason, or after twenty full pages in order |
| `Capture.StableLibraryIsCapturedExactly` | code/Alpha0.x/connector/atnr_connector/service.py:209-263 | a stable library of n distinct items is captured exactly when n < 20000 and its bytes fit, in order, from n/1000 + 1 pages |
| `Capture.LargeLibraryIsRefused` | code/Alpha0.x/connector/atnr_connector/service.py:246-247 | a larger one stops at the page cap when its bytes fit |
| `Capture.ItemLimitIsUnreachable` | code/Alpha0.x/connector/atnr_connector/service.py:238-240 | the item-limit stop never fires |
| `Capture.ScanExactly` | code/Alpha0.x/connector/atnr_connector/service.py:225-236 | the item loop passes exactly for valid ids that repeat neither each other nor an earlier page |
| `Normalize.Normalizer.ResolvePerson` | code/Alpha0.x/connector/atnr_connector/normalize.py:339-376 | the person id and the directory with its role recorded |
| `Normalize.Normalizer.Contributors` | code/Alpha0.x/connector/atnr_connector/normalize.py:379-417 | the ids in order, or the refusal |
| `Normalize.Normalizer.PlaceSeries` | code/Alpha0.x/connector/atnr_connector/normalize.py:420-454 | the series id and facet, or the refusal |
| `Normalize.Normalizer.Categories` | code/Alpha0.x/connector/atnr_connector/normalize.py:457-491 | the sorted distinct genre ids and their facets |
| `Normalize.Normalizer.AddRecord` | code/Alpha0.x/connector/atnr_connector/normalize.py:536-632 | one record added, or its refusal |
| `Normalize.NormalizeLibrary` | code/Alpha0.x/connector/atnr_connector/normalize.py:525-662 | computes the specified normalization |
| `NormalizeLaws.ClosingChecksNeverFire` | code/Alpha0.x/connector/atnr_connector/normalize.py:637-650 | the three closing checks can never fire |
| `NormalizeLaws.EmittedSnapshotIsAcceptable` | code/Alpha0.x/connector/atnr_connector/normalize.py:530-650 | unique books in id order, exactly one entry beside each, one for every record, every reference present |
| `NormalizeLaws.NormalizesExactly` | code/Alpha0.x/connector/atnr_connector/normalize.py:525-583 | complete or stop: it succeeds exactly when every record is valid and no two name the same book |
| `NormalizeLaws.EmittedSnapshotReplaysExactly` | code/Alpha0.x/src/sync/reconcile.js:104-198 | reconciling an emitted capture twice is reconciling it once |
| `NormalizeCredits.RecordsAreEmitted` | code/Alpha0.x/connector/atnr_connector/normalize.py:536-632 | every record has its book, naming exactly its own authors as authors, its own narrators as narrators, its genres, its series and its title, beside the entry with its status, progress and purchase |
| `NormalizeCredits.PeopleAreContributors` | code/Alpha0.x/connector/atnr_connector/normalize.py:339-376 | every person of the catalog is a contributor of some record, under a name that record gives |
| `NormalizeCredits.FacetsAreGiven` | code/Alpha0.x/connector/atnr_connector/normalize.py:420-491 | every facet of the catalog is the series or a genre of some record, under the name that record gives |
| `NormalizeCredits.ResolvedNames` | code/Alpha0.x/connector/atnr_connector/normalize.py:362-376 | a known person keeps the name given first |
| `NormalizeIdentity.SamePersonExactly` | code/Alpha0.x/connector/atnr_connector/normalize.py:352-361 | with an injective digest two contributors are one person exactly when the source gives both the same identifier; without one nobody merges |
| `NormalizeIdentity.OccurrencesAreUnique` | code/Alpha0.x/connector/atnr_connector/normalize.py:404-411 | title, role and position make an occurrence nobody else has, whatever the source puts into its ids |
| `NormalizeIdentity.RolesAreCredits` | code/Alpha0.x/connector/atnr_connector/normalize.py:363-375 | a person carries a role exactly when some book lists the person in it |
| `Paging.WindowShowsWhatItSays` | code/Alpha0.x/src/core/paginate.js:62-81 | a window is a bounded real page, exactly the slice its indices report |
| `Paging.WindowIsThePage` | code/Alpha0.x/src/core/paginate.js:50-81 | it is the requested page if there is one, otherwise the first or the last, and says truly whether others come before and after |
| `Paging.PagesConcatenateToTheSource` | code/Alpha0.x/src/core/paginate.js:50-81 | the pages one after another are the source |
| `Paging.ItemIsOnExactlyOnePage` | code/Alpha0.x/src/core/paginate.js:50-81 | every item is shown by one page and by no other |
| `Paging.PaginateGroups` | code/Alpha0.x/src/core/paginate.js:123-163 | computes the grouped page, of at most 50 rows |
| `Paging.GroupedPageTells` | code/Alpha0.x/src/core/paginate.js:123-163 | a grouped page shows at most five groups, the next ones of the list, each at its real size with one child page of at most ten rows, or none while collapsed |
| `Paging.EveryGroupedRowIsReachable` | code/Alpha0.x/src/core/paginate.js:123-148 | every row of an expanded group is on some group page and child page |
| `Ordering.RowOrderIsTotal` | code/Alpha0.x/ui/js/private-store.js:207-255 | the runtime's comparator is a total order on rows whose field holds one kind of value |
| `Ordering.LibraryOrderIsTotal` | code/Alpha0.x/src/core/library.js:198-224 | so is the core view's, for every secondary field and direction |
| `Ordering.MixedKindsCanCycle` | code/Alpha0.x/ui/js/private-store.js:214-215 | numbers mixed with texts could put three values in a circle |
| `Ordering.UnknownsAreLast` | code/Alpha0.x/ui/js/private-store.js:209-213 | in the runtime's order only unknown values follow an unknown value, in either direction |
| `Ordering.LibraryUnknownsAreLast` | code/Alpha0.x/src/core/library.js:194-224 | so in the core view's order, for every secondary field |
| `Ordering.KnownsAreInDirection` | code/Alpha0.x/ui/js/private-store.js:207-216 | sorted rows ascend in the known values of the sorted field, or descend when asked to |
| `Ordering.LibraryKnownsAreInDirection` | code/Alpha0.x/src/core/library.js:203-216 | and so in the core view |
| `Ordering.TiesGoBySeriesPosition` | code/Alpha0.x/ui/js/private-store.js:218-255 | rows that tie come by series position, ascending whatever the direction, and then by id |
| `Ordering.FieldsSortBy` | code/Alpha0.x/ui/js/private-store.js:220-247 | what each field sorts by |
| `Ordering.RowsSortAlike` | code/Alpha0.x/ui/js/private-store.js:218-255 | the same rows in any order sort into the same rows in the runtime |
| `Ordering.LibrarySortsAlike` | code/Alpha0.x/src/core/library.js:215-224 | and in the core view |
| `Ordering.SortIgnoresInputOrder` | code/Alpha0.x/ui/js/private-store.js:218-255 | sorting by any total order ignores the input order |
| `Ordering.SortedArrangementIsUnique` | code/Alpha0.x/ui/js/private-store.js:218-255 | there is one sorted arrangement, so the sorting algorithm does not matter |
| `Grouping.GroupRows` | code/Alpha0.x/ui/js/private-store.js:281-324 | computes the specified groups |
| `Grouping.AddRow` | code/Alpha0.x/ui/js/private-store.js:283-312 | files one row under each of its places |
| `Grouping.AddPlace` | code/Alpha0.x/ui/js/private-store.js:283-294 | the group with the row and the person added, each at most once |
| `Grouping.QueryLibrary` | code/Alpha0.x/ui/js/private-store.js:875-911 | computes the answer, never more than 50 rendered rows |
| `Grouping.GroupsShowExactlyTheirRows` | code/Alpha0.x/ui/js/private-store.js:281-324 | no key has two groups; a key has one exactly when some row is filed under it, and then the group holds exactly those rows, each once, in order |
| `Grouping.StatusAndSeriesPartition` | code/Alpha0.x/ui/js/private-store.js:296-297 | by status or series every row is in one group, the one of its key, and in no other |
| `Grouping.GroupsArePartition` | code/Alpha0.x/ui/js/private-store.js:281-324 | by status or series the groups put together are the rows, each as often as before, so the group sizes add up |
| `Grouping.EveryMatchIsReachable` | code/Alpha0.x/ui/js/private-store.js:892-900 | every match of an uncollapsed group can be brought on screen by choosing pages |
| `Grouping.MatchesIgnoreInputOrder` | code/Alpha0.x/ui/js/private-store.js:875-878 | the matches are the kept rows, none lost or doubled, whatever the input order |
| `Queries.UngroupedAnswer` | code/Alpha0.x/ui/js/private-store.js:875-887 | an ungrouped answer counts the kept rows and all rows, and shows kept rows only |
| `Queries.PagesShowTheKeptRows` | code/Alpha0.x/ui/js/private-store.js:875-887 | all its pages together show every kept row as often as it occurs, nothing else, in order |
| `Queries.GroupedAnswer` | code/Alpha0.x/ui/js/private-store.js:892-911 | a grouped answer counts kept rows, all rows and groups, and shows inside a group only kept rows filed under its key |
| `Queries.EveryKeptRowIsShown` | code/Alpha0.x/ui/js/private-store.js:892-911 | every kept row filed under an uncollapsed key is shown in its group for some choice of pages |
| `Queries.SameGroupExactly` | code/Alpha0.x/ui/js/private-store.js:296-297 | by status rows share a group exactly if they share the status, by series exactly if they share the series |
| `Queries.PeopleAreFiledByName` | code/Alpha0.x/ui/js/private-store.js:298-312 | by authors or narrators a row is filed under the label of the name at the place of each, or as unknown without any |
| `Queries.GroupsAreInOrder` | code/Alpha0.x/ui/js/private-store.js:314-324 | groups come by heading, and under one heading by key |
| `Queries.GroupPeopleExactly` | code/Alpha0.x/ui/js/private-store.js:283-324 | the people of a group are exactly those some row is filed for under its key, each once, in order |
| `Queries.GroupHeadingIsTheFirst` | code/Alpha0.x/ui/js/private-store.js:283-294 | a group has the heading its first row is filed with |
| `Labels.PeopleAreNamedRightExactly` | code/Alpha0.x/src/core/library.js:125 | the people of a row are paired with their own names exactly when the names, in id order, are already in text order |
| `Labels.PeopleCanBeMisnamed` | code/Alpha0.x/ui/js/private-store.js:300-304 | otherwise a person can be filed under another person's name |
| `Lock.ParseLock` | code/Alpha0.x/scripts/private-alpha-policy.js:52-78 | computes the specified entries |
| `Lock.ReadPins` | code/Alpha0.x/scripts/record-dependency-hashes.py:112-121 | computes the specified pins |
| `Lock.RenderPins` | code/Alpha0.x/scripts/record-dependency-hashes.py:123-132 | the block of every pin |
| `Lock.Regenerate` | code/Alpha0.x/scripts/record-dependency-hashes.py:111-136 | reads, asks the index, prints |
| `LockLaws.PolicyReadsWhatWasPrinted` | code/Alpha0.x/scripts/private-alpha-policy.js:52-78 | the policy check reads from a printed lock exactly the pins, artifacts and digests it was printed from |
| `LockReading.PrintingIsInjective` | code/Alpha0.x/scripts/record-dependency-hashes.py:123-132 | two lists of pins print alike only if they are the same |
| `LockReading.ScriptReadsBackExactly` | code/Alpha0.x/scripts/record-dependency-hashes.py:113-121 | the script recovers the pins exactly when no name ends in the text of the hash option |
| `LockReading.RegeneratingIsAFixedPointExactly` | code/Alpha0.x/scripts/record-dependency-hashes.py:111-136 | regenerating a lock whose artifacts are still chosen is a fixed point exactly under that condition |
| `LockReading.SomeNameIsUnreadable` | code/Alpha0.x/scripts/record-dependency-hashes.py:117-120 | a name the policy admits and the script cannot read back |
| `Trust.FindProhibitedKeys` | code/Alpha0.x/src/core/trust.js:115-130 | computes the specified scan |
| `Trust.FindInItems` | code/Alpha0.x/src/core/trust.js:118-123 | the scan of an array, in order |
| `Trust.FindInFields` | code/Alpha0.x/src/core/trust.js:124-129 | the scan of an object: each prohibited key, then what lies below it |
| `Trust.StripCommercialFields` | code/Alpha0.x/src/core/trust.js:158-176 | computes the specified strip |
| `Trust.StrippedIsClean` | code/Alpha0.x/src/core/trust.js:158-176 | scanning the stripped copy with the same bound finds nothing |
| `TrustPaths.FoundExactly` | code/Alpha0.x/src/core/trust.js:115-130 | a path is found exactly if it names a prohibited field less deep than the bound |
| `TrustPaths.DroppedExactly` | code/Alpha0.x/src/core/trust.js:158-176 | a path is dropped exactly if it names such a field that lies in no other |
| `TrustPaths.StripLeavesTheRest` | code/Alpha0.x/src/core/trust.js:158-176 | the strip takes those fields away and nothing else: same items, the other fields in order, each with the rest of its value |
| `Trust.StrippingIsIdempotent` | code/Alpha0.x/src/core/trust.js:158-176 | stripping twice is stripping once, and drops nothing the second time |
| `Trust.CleanIsUntouched` | code/Alpha0.x/src/core/trust.js:158-176 | a value in which the scan finds nothing is returned as it is |
| `Trust.DropsExactlyWhenFound` | code/Alpha0.x/src/core/trust.js:154-176 | something is dropped exactly when the scan of the original finds something |
| `Trust.DroppedAccountsForFound` | code/Alpha0.x/src/core/trust.js:115-176 | every dropped path was found, and everything found lies at or below a dropped path |
| `Trust.DeeperScansAgree` | code/Alpha0.x/src/core/trust.js:115-130 | a value within the bound is scanned whole |
| `Trust.BelowTheBoundSurvives` | code/Alpha0.x/src/core/trust.js:161 | below the bound a prohibited key survives the strip |
| `Custody.UnsealPurpose` | code/Alpha0.x/connector/atnr_connector/custody.py:429-478 | computes the specified result, and hands the protector one ciphertext exactly when the header admits it |
| `Custody.OwnPurposeOpensExactly` | code/Alpha0.x/connector/atnr_connector/custody.py:417-478 | a sealed value opens under its own purpose exactly when its envelope is within the accepted size |
| `Custody.OtherPurposeIsRefused` | code/Alpha0.x/connector/atnr_connector/custody.py:458-463 | under any other purpose it is refused and nothing reaches the protector |
| `Custody.OnePurposePerEnvelope` | code/Alpha0.x/connector/atnr_connector/custody.py:458-467 | whatever the envelope, at most one purpose opens it |
| `Custody.LegacyOpensExactly` | code/Alpha0.x/connector/atnr_connector/custody.py:464-467 | an untagged envelope hands over its body exactly to the library snapshot, and only if the body does not itself begin like a tag |
| `Base64.DecodeEncode` | code/Alpha0.x/connector/atnr_connector/custody.py:426-454 | strict base 64 decodes what it encoded |
| `Texts.LessTotal` | code/Alpha0.x/src/core/validate.js:181-185 | text order is total |

## Left out

- Validation.ValidateTags: trims spaces as Texts.Strip does, which are the ASCII ones; the Unicode spaces that `trim` also drops are kept.
- Validation.ValidationIsIdempotent: the request-size check and the refusal of unknown fields come before the modelled part and are not stated.
- LiveSnapshot.BuildCatalog: records are taken as normalized; the checks of their single fields are not stated.
- LiveSnapshot.ValidateLiveSnapshot: marketplace, schema version and the checks of single fields are not stated.
- LiveSnapshot.AcceptsExactly: exact for ids and references; the checks named for ValidateLiveSnapshot are outside its condition.
- LiveSnapshot.EmittedSnapshotIsAccepted: covers ids and references; text lengths count differently in the two languages and are not compared.
- Stores.EncryptedSnapshotStore.DeleteLocalSnapshot: discharging the rollback envelope is not stated.
- Stores.EncryptedSnapshotStore.PurgeAllLocalData: discharging the rollback envelope is not stated.
- Stores.PrivateFeedbackStore.Purge: the inventory it returns is two counts of rows and is not stated.
- Stores.PrivateFeedbackStore.Delete: the constant fields of the answer are not stated.
- Stores.EncryptedSnapshotStore.Save: a marker whose removal neither throws nor takes effect would be ignored by the code; here a marker that cannot be lifted is one whose removal throws.
- Migration.Container.MigrateDatabase: a failing copy of the rollback envelope, and a failing marker write where only the marker is adopted, are not among the faults.
- Normalize.Normalizer.AddRecord: a book keeps its ids, references and title; its other scalar fields are not computed.
- Normalize.NormalizeLibrary: the same as for AddRecord.
- The loop of `list` and the answer of `exportRecords`: a listing is the sequence of its reads, each at its own moment of a run.
- Anchor writes outside a save: the service never calls the store's method for them, so runs of syncs have no such step.
- HTTP serving, Host, Origin and path handling, process spawning, DPAPI and ACL calls, Playwright and provider access: input, output and foreign calls.
- Views, themes, formatting, announcements, facet counts and `groupLibrary`: fixed text or easier members of the same kind.
- The connector-sealed fallback of a reconciled snapshot when no sealer is configured: the model always seals what it reconciled.
- The connection evidence refreshed after a failed sync, account-alias rules and the security event log: they change no stored row.
- `openRealLibraryState` and the custody path checks: path handling around the modelled planner and constructor.
- Discharging the rollback envelope: only its restoration is modelled.
- The semantic digest of a snapshot (FNV-1a over canonical JSON): a change detector nothing modelled depends on.
- Marketplace, schema version and field-level checks of `validateLiveSnapshot`, and the request-size check of a save: single comparisons before the modelled part.
- Synopsis markup stripping, date and number parsing, and the remaining scalar fields of a book: they do not affect ids or references.
- The conditions of the library filter: the query takes any predicate on rows, so its laws hold for each of them.
- Rounding of the progress percentage to three digits: the value is kept as a real number.
- UTF-16 order and length: texts are sequences of code points, which differs from JavaScript's order beyond the basic plane.
- SQL type affinity beyond integers written into text columns: a migrated cell is otherwise kept as it is.
- Failures of file removal and disk writes other than those named as parameters of the steps.
- Group keys that collide with built-in JavaScript property names when child pages are looked up.
