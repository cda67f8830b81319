/** What a last-import record says about the import it is read back for, counted over the
    libraries themselves (`#recordLastImport` of src/sync/private-alpha-service.js), and what a
    successful sync stores. */
module SyncImports {
  import opened Texts
  import opened Library
  import opened Reconcile
  import opened ReconcileLaws
  import opened ReconcileById
  import opened Reopening
  import opened Storage
  import opened Sync
  import opened SyncRecords
  import opened SyncRuns

  // ---- Counting over the libraries ---------------------------------------------

  function ListedIds(c: Snapshot): set<string> { set i | 0 <= i < |c.entries| :: c.entries[i].bookId }

  function KnownIds(previous: Option<Snapshot>): set<string> { if previous.None? then {} else ListedIds(previous.value) }

  /** The books the library had flagged as missing. */
  function FlaggedIds(previous: Option<Snapshot>): set<string> {
    if previous.None? then {}
    else set i | 0 <= i < |previous.value.entries| && previous.value.entries[i].missingFromSource
           :: previous.value.entries[i].bookId
  }

  ghost predicate NoBookTwice(previous: Option<Snapshot>) {
    previous.Some? ==> DistinctIds(previous.value.entries, EntryId)
  }

  /** New books, known ones that were not missed, known ones that were, and ones no longer listed. */
  ghost predicate Tells(counts: Counts, previous: Option<Snapshot>, c: Snapshot) {
    && counts.added == |ListedIds(c) - KnownIds(previous)|
    && counts.updated == |(ListedIds(c) * KnownIds(previous)) - FlaggedIds(previous)|
    && counts.reappeared == |ListedIds(c) * FlaggedIds(previous)|
    && counts.missingFromSource == |KnownIds(previous) - ListedIds(c)|
  }

  lemma EntriesByList(s: Snapshot)
    ensures Entries(Some(s)).Keys == ListedIds(s)
  {
    IndexKeys(s.entries, EntryId);
    assert Ids(s.entries, EntryId) == ListedIds(s) by {
      forall i | 0 <= i < |s.entries| ensures s.entries[i].bookId in Ids(s.entries, EntryId) {
        assert EntryId(s.entries[i]) in Ids(s.entries, EntryId);
      }
    }
  }

  lemma FlaggedByList(previous: Option<Snapshot>)
    requires NoBookTwice(previous)
    ensures forall id :: id in FlaggedIds(previous) <==> id in Entries(previous) && Entries(previous)[id].missingFromSource
    ensures FlaggedIds(previous) <= KnownIds(previous)
  {
    if previous.Some? {
      var entries := previous.value.entries;
      IndexOfDistinct(entries, EntryId);
      IndexKeys(entries, EntryId);
      forall id | id in Entries(previous) && Entries(previous)[id].missingFromSource ensures id in FlaggedIds(previous) {
        var i :| 0 <= i < |entries| && entries[i] == Entries(previous)[id];
        assert entries[i].missingFromSource && entries[i].bookId == EntryId(entries[i]) == id;
      }
      forall id | id in FlaggedIds(previous) ensures id in Entries(previous) && Entries(previous)[id].missingFromSource {
        var i :| 0 <= i < |entries| && entries[i].missingFromSource && entries[i].bookId == id;
        assert EntryId(entries[i]) == id;
      }
    }
  }

  lemma KnownByList(previous: Option<Snapshot>)
    ensures Entries(previous).Keys == KnownIds(previous)
  {
    if previous.Some? { EntriesByList(previous.value); }
  }

  /** A list in order has as many elements as the set of its elements. */
  lemma ListSize(list: seq<string>, ids: set<string>)
    requires Ascending(list) && forall id :: id in list <==> id in ids
    ensures |list| == |ids|
  {
    forall i, j | 0 <= i < j < |list| ensures list[i] != list[j] { LessTotal(list[i], list[j]); }
    NoRepeatsSize(list);
    assert AsSet(list) == ids by {
      forall id | id in ids ensures id in AsSet(list) { assert id in list; }
    }
  }

  /** What a reconciliation reports is what the libraries say. */
  lemma ReportTells(previous: Option<Snapshot>, c: Snapshot, r: Reconciled)
    requires Promotes(previous, c, r) && NoBookTwice(previous)
    ensures Tells(CountsOf(r.report), previous, c)
  {
    PromotedReport(previous, c, r);
    PromotedInOrder(previous, c, r);
    EntriesByList(c);
    KnownByList(previous);
    FlaggedByList(previous);
    ListSize(r.report.added, ListedIds(c) - KnownIds(previous));
    ListSize(r.report.updated, (ListedIds(c) * KnownIds(previous)) - FlaggedIds(previous));
    ListSize(r.report.reappeared, ListedIds(c) * FlaggedIds(previous));
    ListSize(r.report.missingFromSource, KnownIds(previous) - ListedIds(c));
  }

  // ---- The import that produced the stored snapshot ------------------------------

  /** The library a sync reconciles with. */
  ghost function PreviousLibrary(s: Local): Option<Snapshot>
    requires s.phase.Fetching?
  {
    if s.phase.hadSnapshot then OpenedPrevious(s.db) else None
  }

  /** Step `k` received a capture whose reconciliation is `r`. */
  ghost predicate ImportAt(s: Local, steps: seq<Step>, k: nat, r: Reconciled) {
    && k < |steps| && steps[k].Receive? && steps[k].fetched.Ok? && steps[k].fetched.value.validated.Some?
    && After(s, steps, k).phase.Fetching?
    && Promotes(PreviousLibrary(After(s, steps, k)), steps[k].fetched.value.validated.value, r)
  }

  /** A received capture waits with its reconciliation. */
  ghost predicate Receives(s: Local, step: Step, r: Reconciled) {
    && step.Receive? && step.fetched.Ok? && step.fetched.value.validated.Some? && s.phase.Fetching?
    && Promotes(PreviousLibrary(s), step.fetched.value.validated.value, r)
  }

  ghost predicate StandsFor(s: Local, r: Reconciled) {
    s.produced == Some(CountsOf(r.report)) && StoredContent(s.db) == Some(r.snapshot)
  }

  lemma SealingComesFromReceive(s: Local, step: Step)
    requires Next(s, step).0.phase.Sealing?
    ensures Next(s, step).0.phase == s.phase || Receives(s, step, Next(s, step).0.phase.result)
  {
  }

  lemma ProducedComesFromCommit(s: Local, step: Step)
    requires Next(s, step).0.produced.Some?
    ensures
      var s' := Next(s, step).0;
      || (s'.produced == s.produced && StoredContent(s'.db) == StoredContent(s.db))
      || (s.phase.Sealing? && StandsFor(s', s.phase.result))
  {
  }

  ghost predicate WaitingComesFrom(s: Local, steps: seq<Step>, n: nat, k: nat)
    requires n <= |steps|
  {
    After(s, steps, n).phase.Sealing? && k < n && ImportAt(s, steps, k, After(s, steps, n).phase.result)
  }

  /** What is stored was produced by the import received at step `k`. */
  ghost predicate StoredComesFrom(s: Local, steps: seq<Step>, n: nat, k: nat, r: Reconciled)
    requires n <= |steps|
  {
    k < n && ImportAt(s, steps, k, r) && StandsFor(After(s, steps, n), r)
  }

  ghost predicate Traced(s: Local, steps: seq<Step>, n: nat)
    requires n <= |steps|
  {
    && (After(s, steps, n).phase.Sealing? ==> exists k: nat :: WaitingComesFrom(s, steps, n, k))
    && (After(s, steps, n).produced.Some? ==> exists k: nat, r :: StoredComesFrom(s, steps, n, k, r))
  }

  lemma WaitingIsTraced(s: Local, steps: seq<Step>, n: nat, m: nat)
    requires m == n + 1 <= |steps| && Traced(s, steps, n) && After(s, steps, m).phase.Sealing?
    ensures exists k: nat :: WaitingComesFrom(s, steps, m, k)
  {
    var before, after := After(s, steps, n), After(s, steps, m);
    assert after == Next(before, steps[n]).0;
    SealingComesFromReceive(before, steps[n]);
    if after.phase == before.phase {
      var k: nat :| WaitingComesFrom(s, steps, n, k);
      assert WaitingComesFrom(s, steps, m, k);
    } else {
      assert WaitingComesFrom(s, steps, m, n);
    }
  }

  lemma StoredIsTraced(s: Local, steps: seq<Step>, n: nat, m: nat)
    requires m == n + 1 <= |steps| && Traced(s, steps, n) && After(s, steps, m).produced.Some?
    ensures exists k: nat, r :: StoredComesFrom(s, steps, m, k, r)
  {
    var before, after := After(s, steps, n), After(s, steps, m);
    assert after == Next(before, steps[n]).0;
    ProducedComesFromCommit(before, steps[n]);
    if before.phase.Sealing? && StandsFor(after, before.phase.result) {
      var k: nat :| WaitingComesFrom(s, steps, n, k);
      assert StoredComesFrom(s, steps, m, k, before.phase.result);
    } else {
      var k: nat, r :| StoredComesFrom(s, steps, n, k, r);
      assert StoredComesFrom(s, steps, m, k, r);
    }
  }

  lemma StepIsTraced(s: Local, steps: seq<Step>, n: nat)
    requires n < |steps| && Traced(s, steps, n)
    ensures Traced(s, steps, n + 1)
  {
    if After(s, steps, n + 1).phase.Sealing? { WaitingIsTraced(s, steps, n, n + 1); }
    if After(s, steps, n + 1).produced.Some? { StoredIsTraced(s, steps, n, n + 1); }
  }

  lemma NothingToTrace(s: Local, steps: seq<Step>)
    requires !s.phase.Sealing? && s.produced.None?
    ensures Traced(s, steps, 0)
  {
  }

  lemma {:induction false} RunIsTraced(s: Local, steps: seq<Step>, n: nat)
    requires !s.phase.Sealing? && s.produced.None? && n <= |steps|
    ensures Traced(s, steps, n)
  {
    NothingToTrace(s, steps);
    for m := 0 to n
      invariant Traced(s, steps, m)
    {
      StepIsTraced(s, steps, m);
    }
  }

  lemma PreviousHasNoBookTwice(s: Local)
    requires s.phase.Fetching?
    ensures NoBookTwice(PreviousLibrary(s))
  {
    if PreviousLibrary(s).Some? {
      var content := StoredContent(s.db).value;
      ReopensExactly(content);
      ReopenedHasNoBookTwice(content);
    }
  }

  lemma ReopenedHasNoBookTwice(content: Snapshot)
    requires Reopened(content).Ok?
    ensures DistinctIds(Reopened(content).value.entries, EntryId)
  {
    ReopensExactly(content);
    var stamped := StampedAll(IndexBy(content.entries, EntryId), content.observedAt.value);
    IndexKeys(content.entries, EntryId);
    IndexOfSortedValues(stamped, EntryId);
  }

  /** The record tells the import received at step `k`, whose result is what is stored. */
  ghost predicate TellsImport(s: Local, steps: seq<Step>, n: nat, k: nat, counts: Counts)
    requires n <= |steps|
  {
    && k < n && steps[k].Receive? && steps[k].fetched.Ok? && steps[k].fetched.value.validated.Some?
    && After(s, steps, k).phase.Fetching?
    && var previous, c := PreviousLibrary(After(s, steps, k)), steps[k].fetched.value.validated.value;
       && Tells(counts, previous, c)
       && Reconciliation(previous, Some(c), true).Ok?
       && StoredContent(After(s, steps, n).db) == Some(Reconciliation(previous, Some(c), true).value.snapshot)
  }

  lemma HonestTells(s: Local, steps: seq<Step>, n: nat)
    requires !s.phase.Sealing? && s.produced.None? && n <= |steps|
    requires Honest(After(s, steps, n)) && ReadBack(After(s, steps, n).file, After(s, steps, n).db).Some?
    ensures exists k: nat :: TellsImport(s, steps, n, k, ReadBack(After(s, steps, n).file, After(s, steps, n).db).value)
  {
    RunIsTraced(s, steps, n);
    var k: nat, r :| StoredComesFrom(s, steps, n, k, r);
    PreviousHasNoBookTwice(After(s, steps, k));
    ReportTells(PreviousLibrary(After(s, steps, k)), steps[k].fetched.value.validated.value, r);
    assert TellsImport(s, steps, n, k, ReadBack(After(s, steps, n).file, After(s, steps, n).db).value);
  }

  /** Over every run from a state with nothing imported, in which every erasure removes the record
      or every commit writes it, a record read back counts what the import of the stored library
      found: against the library it was reconciled with, over the capture it received. */
  lemma RecordsTellTheImport(s: Local, steps: seq<Step>, n: nat)
    requires s.phase.Idle? && s.produced.None? && s.file.NoFile? && n <= |steps|
    requires (forall j :: 0 <= j < n ==> ErasesCompletely(steps[j])) || (forall j :: 0 <= j < n ==> RecordsEveryCommit(steps[j]))
    ensures ReadBack(After(s, steps, n).file, After(s, steps, n).db).Some? ==>
      exists k: nat :: TellsImport(s, steps, n, k, ReadBack(After(s, steps, n).file, After(s, steps, n).db).value)
  {
    if forall j :: 0 <= j < n ==> ErasesCompletely(steps[j]) {
      RecordsAreHonest(s, steps, n);
    } else {
      WrittenRecordsAreHonest(s, steps, n);
    }
    if ReadBack(After(s, steps, n).file, After(s, steps, n).db).Some? { HonestTells(s, steps, n); }
  }

  // ---- What a successful sync stores --------------------------------------------------

  /** After a success the rows hold the reconciled library under the next generation, the account
      is anchored, and the last success is now; the record, if it could be written, names it. */
  lemma SuccessStoresTheLibrary(s: Local, seal: SealAnswer, statementsOk: bool, lifting: Lifting, recordWrites: bool, at: Instant)
    requires s.phase.Sealing? && Next(s, Commit(seal, statementsOk, lifting, recordWrites, at)).1.Synced?
    ensures
      var (s', answer), result := Next(s, Commit(seal, statementsOk, lifting, recordWrites, at)), s.phase.result;
      && answer == Synced(Generation(s.db) + 1)
      && s'.phase.Idle? && s'.marker.NoMarker? && s'.db.reviews == s.db.reviews
      && s'.db.snapshot == Some(SnapshotRow(s.phase.owner, s.phase.marketplace, |result.snapshot.entries|,
           result.report.observedAt, Sealed(result.snapshot), Generation(s.db) + 1, s.phase.basis))
      && s'.db.sync == Some(SyncRow(Some(at), Some(at), None, Generation(s.db) + 1, Some(result.report.observedAt)))
      && s'.db.anchor == Some(Anchor(
           if s.db.anchor.Some? then s.db.anchor.value.account else s.phase.owner, s.phase.marketplace,
           if s.db.anchor.Some? then s.db.anchor.value.establishedAt else at, at))
      && (SealingOk(s.phase) && recordWrites ==>
            ReadBack(s'.file, s'.db) == Some(Counts(|result.report.added|, |result.report.updated|,
                                                   |result.report.reappeared|, |result.report.missingFromSource|)))
      && (!recordWrites ==> s'.file == s.file)
  {
    var sealed := SealedBy(s.phase, seal).value;
    if SealingOk(s.phase) { AcceptedSaveIsRecordable(s, RequestOf(s.phase, sealed, at), sealed, at); }
  }

  // ---- Which syncs succeed ------------------------------------------------------------

  /** Over a sound store a received capture is taken exactly if it arrived, of the account the
      store belongs to, validated, with the announced number of entries, not declared incomplete,
      with the stored library unsealed if there is one, and complete in itself. */
  lemma CaptureIsTakenExactly(s: Local, fetched: Result<Fetch, string>, unsealed: bool, at: Instant)
    requires WholeStore(s) && s.phase.Fetching?
    ensures
      var s' := Next(s, Receive(fetched, unsealed, at)).0;
      s'.phase.Sealing? <==>
        && fetched.Ok? && fetched.value.account.Some?
        && (s.phase.account.Some? ==> fetched.value.account == s.phase.account)
        && fetched.value.validated.Some?
        && |fetched.value.validated.value.entries| == fetched.value.itemCount
        && fetched.value.complete != Some(false)
        && (s.phase.hadSnapshot && s.db.snapshot.Some? ==> unsealed)
        && CompleteInItself(fetched.value.validated.value)
  {
    if fetched.Ok? && fetched.value.validated.Some? {
      TakenWhenAcceptable(s, fetched.value);
      AcceptableByField(fetched.value.validated.value);
    }
  }

  /** A received capture that fails names a reason that is true of it. */
  lemma RefusedCaptureIsExplained(s: Local, f: Fetch, unsealed: bool, at: Instant)
    requires WholeStore(s) && s.phase.Fetching?
    requires Next(s, Receive(Ok(f), unsealed, at)).1.SyncFailed?
    ensures
      var code := Next(s, Receive(Ok(f), unsealed, at)).1.code;
      var count := if f.validated.Some? then |f.validated.value.entries| else 0;
      || (code == "different-account-local-data-exists" && s.phase.account.Some? && f.account != s.phase.account)
      || (code == "snapshot-invalid" && f.validated.None?)
      || (code == "library-count-mismatch" && f.validated.Some? && count != f.itemCount)
      || (code == "library-capture-incomplete" && f.complete == Some(false))
      || (code == "private-alpha-operation-failed" && s.db.snapshot.Some? && !unsealed)
      || (code == "reconcile" && f.validated.Some? && !CompleteInItself(f.validated.value))
      || (code == "account-key-invalid" && f.account.None?)
  {
    if f.validated.Some? {
      TakenWhenAcceptable(s, f);
      AcceptableByField(f.validated.value);
    }
  }

  /** Observed at some time, no entry twice, and everything it names is there. */
  ghost predicate CompleteInItself(c: Snapshot) {
    && c.observedAt.Some?
    && (forall i, j :: 0 <= i < j < |c.entries| ==> c.entries[i].bookId != c.entries[j].bookId)
    && ReferencesResolve(c.catalog, c.entries)
  }

  lemma AcceptableByField(c: Snapshot)
    ensures Acceptable(c) <==> CompleteInItself(c)
  {
    WholeByField(c.catalog, c.entries);
    if Acceptable(c) {
      forall i, j | 0 <= i < j < |c.entries| ensures c.entries[i].bookId != c.entries[j].bookId {
        assert EntryId(c.entries[i]) != EntryId(c.entries[j]);
      }
    }
  }

  lemma TakenWhenAcceptable(s: Local, f: Fetch)
    requires WholeStore(s) && s.phase.Fetching? && f.validated.Some?
    ensures !StoredIsRefused(s.db) && (ReconciledWith(s, f).Ok? <==> Acceptable(f.validated.value))
  {
    StoredLibraryNeverStopsASync(s, [], 0, f);
  }

  /** A waiting result is stored and answered as a success exactly if it is sealed as asked, the
      account, marketplace and size are ones the store takes, its statements run, and a marker on
      disk is lifted. */
  lemma SyncSucceedsExactly(s: Local, seal: SealAnswer, statementsOk: bool, lifting: Lifting, recordWrites: bool, at: Instant)
    requires s.phase.Sealing?
    ensures Next(s, Commit(seal, statementsOk, lifting, recordWrites, at)).1.Synced? <==>
      && seal.SealedAsAsked? && statementsOk
      && (lifting.Lifted? || (lifting.CannotLift? && s.marker.NoMarker?))
      && StoredAccount(s.db) in {None, Some(s.phase.owner)} && StoredMarketplace(s.db) in {None, Some("us")}
      && s.phase.marketplace == "us" && IsAccountKey(s.phase.owner)
      && |s.phase.result.snapshot.entries| <= 20000
  {
  }

  // ---- Attempts, failures and erasures, row by row -----------------------------------

  /** A sync starts exactly if none is running and it is the owner's or nothing was suppressed. */
  lemma StartsExactly(s: Local, trigger: Trigger)
    ensures
      var (s', answer) := Next(s, Start(trigger));
      && (answer.Refused? <==> s.phase.Idle? && trigger.Automatic? && Suppressed(s.marker))
      && s' == if s.phase.Idle? && !answer.Refused? then s.(phase := Joining(trigger, StoredAccount(s.db))) else s
  {
  }

  /** The attempt is on record and no other row has changed. */
  ghost predicate AttemptRecorded(db: Db, db': Db, at: Instant) {
    && db'.snapshot == db.snapshot && db'.anchor == db.anchor && db'.reviews == db.reviews
    && db'.sync == Some(
         if db.sync.None? then SyncRow(Some(at), None, None, 0, None)
         else SyncRow(Some(at), db.sync.value.lastSuccessAt, db.sync.value.lastErrorCode,
                      db.sync.value.generation, db.sync.value.candidateObservedAt))
  }

  lemma AttemptByField(db: Db, at: Instant)
    ensures AttemptRecorded(db, AttemptedDb(db, at), at)
  {
  }

  /** The connector answered, where a library is stored, and not with another account. */
  predicate AccountFits(stored: Option<string>, connected: Option<Option<string>>) {
    stored.Some? ==> connected.Some? && (connected.value.None? || connected.value == stored)
  }

  /** A sync gets past its account join exactly if the account fits and a suppression was lifted
      where the owner asked; then the attempt is on record. */
  lemma JoinsExactly(s: Local, connected: Option<Option<string>>, markerClears: bool, at: Instant)
    requires s.phase.Joining?
    ensures
      var lifts := s.phase.trigger.Manual? && Suppressed(s.marker);
      Next(s, Join(connected, markerClears, at)).1 == Joined <==>
        AccountFits(s.phase.stored, connected) && (lifts ==> markerClears)
    ensures Next(s, Join(connected, markerClears, at)).1 != Joined ==>
      Next(s, Join(connected, markerClears, at)).0 == s.(phase := Idle)
    ensures Next(s, Join(connected, markerClears, at)).1 == Joined ==>
      var s' := Next(s, Join(connected, markerClears, at)).0;
      && s'.phase == Fetching(StoredAccount(s.db), s.db.snapshot.Some?) && AttemptRecorded(s.db, s'.db, at)
      && s'.marker == (if s.phase.trigger.Manual? && Suppressed(s.marker) then NoMarker else s.marker)
  {
    AttemptByField(s.db, at);
  }

  /** Every failed sync leaves its code and its time. */
  lemma FailuresAreRecorded(s: Local, step: Step)
    requires Next(s, step).1.SyncFailed?
    ensures step.Receive? || step.Commit?
    ensures
      var (s', answer) := Next(s, step);
      && s'.phase.Idle? && s'.db.sync.Some?
      && s'.db.sync.value.lastErrorCode == Some(answer.code)
      && s'.db.sync.value.lastAttemptAt == Some(step.at)
  {
  }

  /** What an erasure leaves: no snapshot and no sync state; of a deletion the reviews and, while
      there are any, their anchor; of a purge nothing. */
  lemma ErasesExactly(s: Local, step: Step)
    requires Erases(step)
    ensures
      var (s', answer) := Next(s, step);
      && s'.db.snapshot.None? && s'.db.sync.None? && s'.produced.None? && s'.phase == s.phase
      && (step.DeleteLocal? ==>
            s'.db.reviews == s.db.reviews && s'.db.anchor == if s.db.reviews == map[] then None else s.db.anchor)
      && (step.PurgeAll? ==> s'.db.reviews == map[] && s'.db.anchor.None?)
      && (answer == Erased <==> step.markerWrites) && (answer != Erased ==> answer == ErasureFailed)
      && s'.marker == (if step.markerWrites then DeletedByOwner(step.at) else s.marker)
      && s'.file == (if step.markerWrites && step.recordClears then NoFile else s.file)
  {
    assert |s.db.reviews| == 0 <==> s.db.reviews == map[];
  }
}
