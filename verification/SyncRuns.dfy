/** Whole runs of syncs and erasures: the two ways a promise of the service fails, as runs
    from a new container, and exactly when an erasure can be undone without a manual sync. */
module SyncRuns {
  import opened Texts
  import opened Library
  import opened Reconcile
  import opened ReconcileLaws
  import opened Storage
  import opened Sync
  import opened SyncRecords
  import opened Reopening

  function Repeated(c: char, n: nat): (r: string)
    ensures |r| == n && forall i :: 0 <= i < n ==> r[i] == c
  {
    if n == 0 then "" else [c] + Repeated(c, n - 1)
  }

  const OWNER := Repeated('a', 64)

  lemma OwnerIsAccountKey()
    ensures IsAccountKey(OWNER)
  {
  }

  /** Nothing stored, nothing recorded, nothing in flight. */
  const NEW := Local(EMPTY_DB, NoMarker, NoFile, Idle, None)

  const THE_BOOK := Book("b", [], [], [], [], "", "")
  const THE_ENTRY := Entry("b", Facts("unknown", None, None, None, None, None), Provenance("", 0), None, None, None, false)
  const NO_BOOKS := Snapshot(Some(0), "", Catalog([], [], []), [])
  const ONE_BOOK := Snapshot(Some(0), "", Catalog([], [], [THE_BOOK]), [THE_ENTRY])

  /** The state after all the steps, and the answer to the last of them. */
  ghost function Run(s: Local, steps: seq<Step>): Local { After(s, steps, |steps|) }

  lemma {:induction false} AfterFirst(s: Local, steps: seq<Step>, n: nat)
    requires 0 < n <= |steps|
    ensures After(s, steps, n) == After(Next(s, steps[0]).0, steps[1..], n - 1)
  {
    if n == 1 {
      assert After(s, steps, 0) == s;
    } else {
      AfterFirst(s, steps, n - 1);
      assert steps[1..][n - 2] == steps[n - 1];
    }
  }

  lemma RunFirst(s: Local, step: Step, rest: seq<Step>)
    ensures Run(s, [step] + rest) == Run(Next(s, step).0, rest)
  {
    AfterFirst(s, [step] + rest, |rest| + 1);
    assert ([step] + rest)[1..] == rest;
  }

  lemma {:induction false} RunAppend(s: Local, a: seq<Step>, b: seq<Step>)
    ensures Run(s, a + b) == Run(Run(s, a), b)
    decreases |a|
  {
    if a == [] {
      assert a + b == b;
    } else {
      RunFirst(s, a[0], a[1..] + b);
      RunFirst(s, a[0], a[1..]);
      RunAppend(Next(s, a[0]).0, a[1..], b);
      assert a == [a[0]] + a[1..] && a + b == [a[0]] + (a[1..] + b);
    }
  }

  // ---- One sync, step by step --------------------------------------------------

  function CaptureOf(c: Snapshot): Fetch { Fetch(Some(OWNER), "us", Some(c), |c.entries|, None, None) }

  /** Start, join and receive: everything before the save. */
  function UpToSeal(trigger: Trigger, c: Snapshot, at: Instant): seq<Step> {
    [Start(trigger), Join(Some(Some(OWNER)), true, at), Receive(Ok(CaptureOf(c)), true, at)]
  }

  function WholeSync(trigger: Trigger, c: Snapshot, recordWrites: bool, at: Instant): seq<Step> {
    UpToSeal(trigger, c, at) + [Commit(SealedAsAsked, true, Lifted, recordWrites, at)]
  }

  /** Idle, the owner's if anyone's, and free to sync. */
  ghost predicate Ready(s: Local, trigger: Trigger) {
    && s.phase.Idle?
    && (trigger.Manual? || !Suppressed(s.marker))
    && StoredAccount(s.db) in {None, Some(OWNER)}
    && !StoredIsRefused(s.db)
  }

  /** What is opened is whole: validation saw to it. */
  lemma OpenedIsWhole(db: Db)
    ensures OpenedPrevious(db).Some? ==> Whole(OpenedPrevious(db).value.catalog, OpenedPrevious(db).value.entries)
  {
    if OpenedPrevious(db).Some? { ReopenedIndex(StoredContent(db).value); }
  }

  ghost function ResultOf(s: Local, c: Snapshot): Reconciled
    requires Reconciliation(OpenedPrevious(s.db), Some(c), true).Ok?
  {
    Reconciliation(OpenedPrevious(s.db), Some(c), true).value
  }

  function Fetched(s: Local, trigger: Trigger, at: Instant): Local {
    s.(marker := if trigger.Manual? && Suppressed(s.marker) then NoMarker else s.marker,
       phase := Fetching(StoredAccount(s.db), s.db.snapshot.Some?),
       db := AttemptedDb(s.db, at))
  }

  lemma JoinsAccount(s: Local, trigger: Trigger, at: Instant)
    requires Ready(s, trigger)
    ensures var started := Next(s, Start(trigger)).0;
      Next(started, Join(Some(Some(OWNER)), true, at)).0 == Fetched(s, trigger, at)
  {
  }

  lemma FetchedPrevious(s: Local, trigger: Trigger, c: Snapshot, at: Instant)
    ensures ReconciledWith(Fetched(s, trigger, at), CaptureOf(c)) == Reconciliation(OpenedPrevious(s.db), Some(c), true)
  {
    assert StoredContent(AttemptedDb(s.db, at)) == StoredContent(s.db);
  }

  /** A received result that reconciles goes on to its seal. */
  lemma ReceivedSeals(s: Local, f: Fetch, at: Instant)
    requires s.phase.Fetching? && f.account.Some? && (s.phase.account.Some? ==> f.account == s.phase.account)
    requires f.validated.Some? && |f.validated.value.entries| == f.itemCount && f.complete.None?
    requires ReconciledWith(s, f).Ok? && !StoredIsRefused(s.db)
    ensures Next(s, Receive(Ok(f), true, at)).0
      == s.(phase := Sealing(f.account.value, f.marketplace, ReconciledWith(s, f).value, f.basis))
  {
    assert ReceiveError(s, Ok(f), true).None?;
  }

  lemma ReceivesCapture(s: Local, trigger: Trigger, c: Snapshot, at: Instant)
    requires Ready(s, trigger) && Acceptable(c)
    ensures Reconciliation(OpenedPrevious(s.db), Some(c), true).Ok?
    ensures Next(Fetched(s, trigger, at), Receive(Ok(CaptureOf(c)), true, at)).0
      == Fetched(s, trigger, at).(phase := Sealing(OWNER, "us", ResultOf(s, c), None))
  {
    OpenedIsWhole(s.db);
    WholePreviousNeverFails(OpenedPrevious(s.db), c);
    assert StoredContent(Fetched(s, trigger, at).db) == StoredContent(s.db);
    FetchedPrevious(s, trigger, c, at);
    ReceivedSeals(Fetched(s, trigger, at), CaptureOf(c), at);
  }

  lemma RunsUpToSeal(s: Local, trigger: Trigger, c: Snapshot, at: Instant)
    requires Ready(s, trigger) && Acceptable(c)
    ensures Reconciliation(OpenedPrevious(s.db), Some(c), true).Ok?
    ensures Run(s, UpToSeal(trigger, c, at)) == Fetched(s, trigger, at).(phase := Sealing(OWNER, "us", ResultOf(s, c), None))
  {
    var start, join, receive := Start(trigger), Join(Some(Some(OWNER)), true, at), Receive(Ok(CaptureOf(c)), true, at);
    JoinsAccount(s, trigger, at);
    ReceivesCapture(s, trigger, c, at);
    RunFirst(s, start, [join, receive]);
    RunFirst(Next(s, start).0, join, [receive]);
    RunFirst(Fetched(s, trigger, at), receive, []);
    assert [receive] + [] == [receive] && [join] + [receive] == [join, receive];
    assert [start] + [join, receive] == UpToSeal(trigger, c, at);
  }

  /** A save over no rows at all. */
  lemma CommitsOverNothing(s: Local, lifting: Lifting, recordWrites: bool, at: Instant)
    requires s.phase.Sealing? && s.phase.owner == OWNER && s.phase.marketplace == "us"
    requires |s.phase.result.snapshot.entries| <= MAX_ITEM_COUNT && s.db.snapshot.None? && s.db.anchor.None?
    ensures var step := Commit(SealedAsAsked, true, lifting, recordWrites, at);
      && MovesSnapshot(s, step)
      && Next(s, step).0.db == SavedDb(s.db, RequestOf(s.phase, Sealed(s.phase.result.snapshot), at)).(
           sync := Next(s, step).0.db.sync)
      && Next(s, step).0.produced == Some(CountsOf(s.phase.result.report)) && Next(s, step).0.phase.Idle?
  {
    OwnerIsAccountKey();
  }

  // ---- The captures -------------------------------------------------------------

  lemma CapturesAreAcceptable()
    ensures Acceptable(NO_BOOKS) && Acceptable(ONE_BOOK)
    ensures IndexOf(NO_BOOKS).entries == map[] && IndexOf(ONE_BOOK).entries.Keys == {"b"}
  {
    assert BookId(THE_BOOK) in Ids([THE_BOOK], BookId) by { assert BookId([THE_BOOK][0]) == "b"; }
    assert IndexBy([THE_ENTRY][..0], EntryId) == map[];
    assert IndexBy([THE_ENTRY], EntryId) == map["b" := THE_ENTRY];
  }

  lemma ResultSize(previous: Option<Snapshot>, c: Snapshot)
    requires Acceptable(c) && Reconciliation(previous, Some(c), true).Ok?
    ensures var r, all := Reconciliation(previous, Some(c), true).value,
                          IndexOf(c).entries.Keys + PreviousIndex(previous).entries.Keys;
      && |r.snapshot.entries| == |all| && IndexOf(r.snapshot).entries.Keys == all
      && |r.report.added| + |r.report.updated| + |r.report.reappeared| + |r.report.missingFromSource| == |all|
  {
    var now := c.observedAt.value;
    ResultSnapshot(previous, c);
    ResultIndex(previous, c);
    ReportPartitionsEntries(previous, c);
    ReportPartitionsIds(PreviousIndex(previous), IndexOf(c), now);
    MergedIds(PreviousIndex(previous), IndexOf(c), now, PreviousObservedAt(previous, now));
  }

  /** The first import of each capture, and that their counts differ. */
  lemma FirstResults()
    ensures Reconciliation(None, Some(NO_BOOKS), true).Ok? && Reconciliation(None, Some(ONE_BOOK), true).Ok?
    ensures |Reconciliation(None, Some(NO_BOOKS), true).value.snapshot.entries| == 0
    ensures |Reconciliation(None, Some(ONE_BOOK), true).value.snapshot.entries| == 1
    ensures CountsOf(Reconciliation(None, Some(NO_BOOKS), true).value.report)
      != CountsOf(Reconciliation(None, Some(ONE_BOOK), true).value.report)
  {
    CapturesAreAcceptable();
    WholePreviousNeverFails(None, NO_BOOKS);
    WholePreviousNeverFails(None, ONE_BOOK);
    ResultSize(None, NO_BOOKS);
    ResultSize(None, ONE_BOOK);
    assert {"b"} + EMPTY_INDEX.entries.Keys == {"b"} && |{"b"}| == 1;
    assert EMPTY_INDEX.entries.Keys + EMPTY_INDEX.entries.Keys == {};
  }

  // ---- A first import -------------------------------------------------------------

  /** What importing a capture into a container without rows leaves behind. */
  ghost predicate Imported(s: Local, before: Local, r: Reconciled, recordWrites: bool) {
    && s.phase.Idle? && s.marker == NoMarker && s.produced == Some(CountsOf(r.report))
    && s.db.snapshot.Some? && s.db.snapshot.value.account == OWNER && s.db.snapshot.value.generation == 1
    && s.db.snapshot.value.sealed == Sealed(r.snapshot)
    && s.db.reviews == before.db.reviews
    && (!recordWrites ==> s.file == before.file)
    && (recordWrites ==> s.file.Parsed? && ValidatedCounts(s.file.raw, Some(OWNER), 1) == s.produced)
  }

  lemma ImportsFirst(s: Local, c: Snapshot, recordWrites: bool, at: Instant)
    requires Ready(s, Manual) && s.db.snapshot.None? && s.db.anchor.None? && Acceptable(c)
    requires Reconciliation(None, Some(c), true).Ok?
    requires |Reconciliation(None, Some(c), true).value.snapshot.entries| <= MAX_ITEM_COUNT
    ensures Imported(Run(s, WholeSync(Manual, c, recordWrites, at)), s, Reconciliation(None, Some(c), true).value, recordWrites)
  {
    var commit := Commit(SealedAsAsked, true, Lifted, recordWrites, at);
    var sealing := Run(s, UpToSeal(Manual, c, at));
    RunsUpToSeal(s, Manual, c, at);
    RunAppend(s, UpToSeal(Manual, c, at), [commit]);
    RunFirst(sealing, commit, []);
    assert [commit] + [] == [commit];
    CommitsOverNothing(sealing, Lifted, recordWrites, at);
    ReportPartitionsEntries(None, c);
    ImportIsRecorded(sealing, commit);
  }

  lemma ImportIsRecorded(sealing: Local, commit: Step)
    requires sealing.phase.Sealing? && SealingOk(sealing.phase) && sealing.phase.owner == OWNER
    requires MovesSnapshot(sealing, commit) && commit.lifting.Lifted? && commit.seal.SealedAsAsked?
    requires Generation(sealing.db) == 0
    ensures var after := Next(sealing, commit).0;
      && after.marker == NoMarker
      && (!commit.recordWrites ==> after.file == sealing.file)
      && (commit.recordWrites ==> after.file.Parsed? && ValidatedCounts(after.file.raw, Some(OWNER), 1) == after.produced)
  {
    AcceptedSaveIsRecordable(sealing, RequestOf(sealing.phase, Sealed(sealing.phase.result.snapshot), commit.at),
                             Sealed(sealing.phase.result.snapshot), commit.at);
  }

  /** Deleting what was imported, when no review depends on it. */
  lemma DeletesImport(s: Local, recordClears: bool, at: Instant)
    requires s.db.reviews == map[]
    ensures var erased := Next(s, DeleteLocal(true, recordClears, at));
      && erased.1 == Erased
      && erased.0 == s.(db := EMPTY_DB, produced := None, marker := DeletedByOwner(at),
                        file := if recordClears then NoFile else s.file)
  {
    assert SnapshotDeletedDb(s.db) == EMPTY_DB;
  }

  // ---- A dishonest record -----------------------------------------------------------

  /** Import, delete without removing the record, import again without writing one. */
  function StaleRecordRun(at: Instant): seq<Step> {
    WholeSync(Manual, NO_BOOKS, true, at) + [DeleteLocal(true, false, at)] + WholeSync(Manual, ONE_BOOK, false, at)
  }

  lemma StaleRecordDeceives(s4: Local, s5: Local, s9: Local, r0: Reconciled, r1: Reconciled)
    requires Imported(s4, NEW, r0, true) && s5.file == s4.file && Imported(s9, s5, r1, false)
    requires CountsOf(r0.report) != CountsOf(r1.report)
    ensures ReadBack(s9.file, s9.db) == Some(CountsOf(r0.report)) && !Honest(s9)
  {
  }

  lemma RunInThree(s: Local, first: seq<Step>, middle: Step, second: seq<Step>)
    ensures Run(s, first + [middle] + second) == Run(Next(Run(s, first), middle).0, second)
  {
    RunAppend(s, first, [middle] + second);
    RunFirst(Run(s, first), middle, second);
    assert first + ([middle] + second) == first + [middle] + second;
  }

  /** A record that outlives its erasure is read back as the record of the next import:
      generations start again at one. */
  lemma StaleRecordIsReadBack(at: Instant)
    ensures var s := Run(NEW, StaleRecordRun(at));
      !Honest(s) && ReadBack(s.file, s.db).Some? && s.phase.Idle?
  {
    FirstResults();
    CapturesAreAcceptable();
    var first, erase, second := WholeSync(Manual, NO_BOOKS, true, at), DeleteLocal(true, false, at), WholeSync(Manual, ONE_BOOK, false, at);
    var s4 := Run(NEW, first);
    var s5 := Next(s4, erase).0;
    ImportsFirst(NEW, NO_BOOKS, true, at);
    DeletesImport(s4, false, at);
    ImportsFirst(s5, ONE_BOOK, false, at);
    RunInThree(NEW, first, erase, second);
    StaleRecordDeceives(s4, s5, Run(s5, second), Reconciliation(None, Some(NO_BOOKS), true).value,
                        Reconciliation(None, Some(ONE_BOOK), true).value);
  }

  // ---- An automatic sync in flight ----------------------------------------------------

  /** Import, begin an automatic sync, delete while it waits for its seal, let it commit. */
  function InFlightRun(lifting: Lifting, at: Instant): seq<Step> {
    WholeSync(Manual, ONE_BOOK, true, at) + UpToSeal(Automatic, ONE_BOOK, at)
      + [DeleteLocal(true, true, at)] + [Commit(SealedAsAsked, true, lifting, true, at)]
  }

  const WITHOUT_COMMIT := 8

  lemma FirstImportReopens(first: Snapshot)
    requires Reconciliation(None, Some(ONE_BOOK), true).Ok?
    requires first == Reconciliation(None, Some(ONE_BOOK), true).value.snapshot
    ensures Reopened(first).Ok? && Whole(Reopened(first).value.catalog, Reopened(first).value.entries)
    ensures IndexOf(Reopened(first).value).entries.Keys == {"b"}
  {
    PromotedSnapshotReopens(None, ONE_BOOK);
    ReopenedIndex(first);
    ReopenedKeepsIds(first);
    FirstImportIds(first);
  }

  lemma FirstImportIds(first: Snapshot)
    requires Reconciliation(None, Some(ONE_BOOK), true).Ok?
    requires first == Reconciliation(None, Some(ONE_BOOK), true).value.snapshot
    ensures IndexOf(first).entries.Keys == {"b"}
  {
    CapturesAreAcceptable();
    ResultSize(None, ONE_BOOK);
    assert {"b"} + EMPTY_INDEX.entries.Keys == {"b"};
  }

  lemma ReimportSize(again: Snapshot)
    requires Whole(again.catalog, again.entries) && IndexOf(again).entries.Keys == {"b"}
    ensures Reconciliation(Some(again), Some(ONE_BOOK), true).Ok?
    ensures |Reconciliation(Some(again), Some(ONE_BOOK), true).value.snapshot.entries| == 1
  {
    CapturesAreAcceptable();
    WholePreviousNeverFails(Some(again), ONE_BOOK);
    ResultSize(Some(again), ONE_BOOK);
    assert {"b"} + {"b"} == {"b"} && |{"b"}| == 1;
  }

  lemma SecondSyncSeals(s: Local, at: Instant)
    requires Reconciliation(None, Some(ONE_BOOK), true).Ok?
    requires Imported(s, NEW, Reconciliation(None, Some(ONE_BOOK), true).value, true)
    ensures var sealing := Run(s, UpToSeal(Automatic, ONE_BOOK, at));
      && sealing.phase.Sealing? && sealing.phase.owner == OWNER && sealing.phase.marketplace == "us"
      && |sealing.phase.result.snapshot.entries| == 1 && sealing.db.reviews == map[]
  {
    var first := Reconciliation(None, Some(ONE_BOOK), true).value.snapshot;
    FirstImportReopens(first);
    ReimportSize(Reopened(first).value);
    CapturesAreAcceptable();
    assert StoredContent(s.db) == Some(first) && OpenedPrevious(s.db) == Some(Reopened(first).value);
    RunsUpToSeal(s, Automatic, ONE_BOOK, at);
  }

  /** That run, taken apart: a first import, a sync up to its sealing, the deletion, the commit. */
  lemma InFlightParts(lifting: Lifting, at: Instant, waiting: Local)
    requires waiting == Run(Run(NEW, WholeSync(Manual, ONE_BOOK, true, at)), UpToSeal(Automatic, ONE_BOOK, at))
    ensures var s := Next(waiting, DeleteLocal(true, true, at)).0;
      && Run(NEW, InFlightRun(lifting, at)) == Next(s, Commit(SealedAsAsked, true, lifting, true, at)).0
      && Run(NEW, InFlightRun(lifting, at)[..WITHOUT_COMMIT]) == s
  {
    var first, sync, erase, commit := WholeSync(Manual, ONE_BOOK, true, at), UpToSeal(Automatic, ONE_BOOK, at),
                                      DeleteLocal(true, true, at), Commit(SealedAsAsked, true, lifting, true, at);
    RunAppend(NEW, first, sync);
    RunAppend(NEW, first + sync, [erase]);
    RunFirst(waiting, erase, []);
    assert [erase] + [] == [erase];
    RunAppend(NEW, first + sync + [erase], [commit]);
    RunFirst(Next(waiting, erase).0, commit, []);
    assert [commit] + [] == [commit];
    assert InFlightRun(lifting, at)[..WITHOUT_COMMIT] == first + sync + [erase];
  }

  /** The state in which the owner's deletion has completed and the sync still waits. */
  lemma InFlightState(lifting: Lifting, at: Instant) returns (s: Local)
    ensures Run(NEW, InFlightRun(lifting, at)) == Next(s, Commit(SealedAsAsked, true, lifting, true, at)).0
    ensures s == Run(NEW, InFlightRun(lifting, at)[..WITHOUT_COMMIT])
    ensures s.db == EMPTY_DB && s.marker == DeletedByOwner(at)
    ensures s.phase.Sealing? && s.phase.owner == OWNER && s.phase.marketplace == "us"
      && |s.phase.result.snapshot.entries| == 1
  {
    FirstResults();
    CapturesAreAcceptable();
    var stored := Run(NEW, WholeSync(Manual, ONE_BOOK, true, at));
    ImportsFirst(NEW, ONE_BOOK, true, at);
    SecondSyncSeals(stored, at);
    var waiting := Run(stored, UpToSeal(Automatic, ONE_BOOK, at));
    DeletesImport(waiting, true, at);
    InFlightParts(lifting, at, waiting);
    s := Next(waiting, DeleteLocal(true, true, at)).0;
  }

  /** An automatic sync that waits for its seal when the owner deletes still saves, and lifts
      the suppression the deletion wrote. */
  lemma SyncInFlightRestoresSnapshot(at: Instant)
    ensures var erased, s := Run(NEW, InFlightRun(Lifted, at)[..WITHOUT_COMMIT]), Run(NEW, InFlightRun(Lifted, at));
      && erased.db == EMPTY_DB && Suppressed(erased.marker)
      && s.db.snapshot.Some? && s.marker == NoMarker && s.phase.Idle?
  {
    var erased := InFlightState(Lifted, at);
    CommitsOverNothing(erased, Lifted, true, at);
  }

  /** The same run, with a marker that cannot be lifted: the sync answers with a failure, and
      the snapshot is back. */
  lemma SyncCanCommitUnawares(at: Instant)
    ensures var erased, commit := Run(NEW, InFlightRun(CannotLift, at)[..WITHOUT_COMMIT]),
                                  Commit(SealedAsAsked, true, CannotLift, true, at);
      && CommitsUnawares(erased, commit) && Next(erased, commit).1.SyncFailed?
      && erased.db.snapshot.None? && Run(NEW, InFlightRun(CannotLift, at)).db.snapshot.Some?
      && Suppressed(Run(NEW, InFlightRun(CannotLift, at)).marker)
  {
    var erased := InFlightState(CannotLift, at);
    CommitsOverNothing(erased, CannotLift, true, at);
  }

  // ---- Exactly when an erasure can be undone ------------------------------------------

  /** The sync in flight, if any, has nothing about it that every save refuses. */
  predicate StillAcceptable(p: Phase) {
    if p.Joining? then true
    else if p.Fetching? then p.account.Some? ==> IsAccountKey(p.account.value)
    else if p.Sealing? then
      IsAccountKey(p.owner) && p.marketplace == "us" && |p.result.snapshot.entries| <= MAX_ITEM_COUNT
    else false
  }

  ghost predicate ErasureCompleted(s: Local) { s.db.snapshot.None? && Suppressed(s.marker) }

  predicate WithoutManualStart(steps: seq<Step>) { forall i :: 0 <= i < |steps| ==> steps[i] != Start(Manual) }

  ghost predicate Doomed(s: Local) { ErasureCompleted(s) && !StillAcceptable(s.phase) }

  lemma DoomedStays(s: Local, step: Step)
    requires Doomed(s) && step != Start(Manual)
    ensures Doomed(Next(s, step).0)
  {
    if step.Receive? { DoomedReceives(s, step); }
    if step.Commit? { DoomedCommits(s, step); }
  }

  lemma DoomedReceives(s: Local, step: Step)
    requires Doomed(s) && step.Receive?
    ensures Doomed(Next(s, step).0)
  {
  }

  lemma DoomedCommits(s: Local, step: Step)
    requires Doomed(s) && step.Commit?
    ensures Doomed(Next(s, step).0)
  {
  }

  lemma {:induction false} DoomedRuns(s: Local, steps: seq<Step>)
    requires Doomed(s) && WithoutManualStart(steps)
    ensures Doomed(Run(s, steps))
    decreases |steps|
  {
    if steps == [] {
    } else {
      DoomedStays(s, steps[0]);
      DoomedRuns(Next(s, steps[0]).0, steps[1..]);
      RunFirst(s, steps[0], steps[1..]);
      assert steps == [steps[0]] + steps[1..];
    }
  }

  const PURGE := PurgeAll(true, true, 0)
  const SAVE := Commit(SealedAsAsked, true, Lifted, true, 0)

  /** A sync that waits for its seal: nothing stored stands in its way after a purge. */
  lemma SealingRestores(s: Local)
    requires s.phase.Sealing? && StillAcceptable(s.phase)
    ensures Run(s, [PURGE, SAVE]).db.snapshot.Some?
  {
    RunFirst(s, PURGE, [SAVE]);
    RunFirst(Next(s, PURGE).0, SAVE, []);
    assert [SAVE] + [] == [SAVE] && [PURGE] + [SAVE] == [PURGE, SAVE];
  }

  function EmptyFetch(account: Option<string>): Fetch {
    Fetch(Some(if account.Some? then account.value else OWNER), "us", Some(NO_BOOKS), 0, None, None)
  }

  lemma EmptyFetchSeals(s: Local)
    requires s.phase.Fetching? && StillAcceptable(s.phase) && s.db.snapshot.None?
    ensures var p := Next(s, Receive(Ok(EmptyFetch(s.phase.account)), true, 0)).0.phase; p.Sealing? && StillAcceptable(p)
  {
    FirstResults();
    OwnerIsAccountKey();
    assert ReconciledWith(s, EmptyFetch(s.phase.account)) == Reconciliation(None, Some(NO_BOOKS), true);
    ReceivedSeals(s, EmptyFetch(s.phase.account), 0);
  }

  lemma FetchingRestores(s: Local)
    requires s.phase.Fetching? && StillAcceptable(s.phase) && s.db.snapshot.None?
    ensures Run(s, [Receive(Ok(EmptyFetch(s.phase.account)), true, 0), PURGE, SAVE]).db.snapshot.Some?
  {
    var receive := Receive(Ok(EmptyFetch(s.phase.account)), true, 0);
    EmptyFetchSeals(s);
    SealingRestores(Next(s, receive).0);
    RunFirst(s, receive, [PURGE, SAVE]);
    assert [receive] + [PURGE, SAVE] == [receive, PURGE, SAVE];
  }

  const JOIN := Join(Some(None), true, 0)

  lemma JoiningRestores(s: Local) returns (steps: seq<Step>)
    requires s.phase.Joining?
    ensures WithoutManualStart(steps) && Run(s, steps).db.snapshot.Some?
  {
    var s1 := Next(s, PURGE).0;
    var s2 := Next(s1, JOIN).0;
    assert s2.phase == Fetching(None, false) && s2.db.snapshot.None?;
    var rest := [Receive(Ok(EmptyFetch(None)), true, 0), PURGE, SAVE];
    FetchingRestores(s2);
    steps := [PURGE] + ([JOIN] + rest);
    RunFirst(s, PURGE, [JOIN] + rest);
    RunFirst(s1, JOIN, rest);
  }

  /** After a completed erasure some continuation without a manual start brings a snapshot
      back exactly when a sync was in flight that a save could still accept. */
  lemma ErasureIsUndoneExactly(s: Local)
    requires ErasureCompleted(s)
    ensures (exists steps :: WithoutManualStart(steps) && Run(s, steps).db.snapshot.Some?) <==> StillAcceptable(s.phase)
  {
    if StillAcceptable(s.phase) {
      var steps := ContinuationFor(s);
    } else {
      forall steps | WithoutManualStart(steps) ensures Run(s, steps).db.snapshot.None? { DoomedRuns(s, steps); }
    }
  }

  lemma ContinuationFor(s: Local) returns (steps: seq<Step>)
    requires ErasureCompleted(s) && StillAcceptable(s.phase)
    ensures WithoutManualStart(steps) && Run(s, steps).db.snapshot.Some?
  {
    if s.phase.Joining? {
      steps := JoiningRestores(s);
    } else if s.phase.Fetching? {
      FetchingRestores(s);
      steps := [Receive(Ok(EmptyFetch(s.phase.account)), true, 0), PURGE, SAVE];
    } else {
      SealingRestores(s);
      steps := [PURGE, SAVE];
    }
  }

  // ---- The stored library over a run of syncs --------------------------------------------

  /** A snapshot the next sync can open and build on. */
  ghost predicate Sound(s: Snapshot) { Whole(s.catalog, s.entries) && Reopened(s).Ok? }

  /** Whatever is stored or about to be is sound. */
  ghost predicate WholeStore(s: Local) {
    && (StoredContent(s.db).Some? ==> Sound(StoredContent(s.db).value))
    && (s.phase.Sealing? ==> Sound(s.phase.result.snapshot))
  }

  lemma ReceivingKeepsWholeStore(s: Local, step: Step)
    requires WholeStore(s) && step.Receive?
    ensures WholeStore(Next(s, step).0)
  {
    if s.phase.Fetching? && ReceiveError(s, step.fetched, step.unsealed).None? {
      var previous := if s.phase.hadSnapshot then OpenedPrevious(s.db) else None;
      var c := step.fetched.value.validated.value;
      PromotedIsWhole(previous, c);
      PromotedSnapshotReopens(previous, c);
    }
  }

  /** What a step other than a receive can do to the stored content and the result in flight. */
  ghost predicate StoresOnlyResults(s: Local, s': Local) {
    && (StoredContent(s'.db) in {None, StoredContent(s.db)}
        || (s.phase.Sealing? && StoredContent(s'.db) == Some(s.phase.result.snapshot)))
    && (s'.phase.Sealing? ==> s'.phase == s.phase)
  }

  lemma StoringKeepsWholeStore(s: Local, s': Local)
    requires WholeStore(s) && StoresOnlyResults(s, s')
    ensures WholeStore(s')
  {
  }

  lemma CommitStoresItsResult(s: Local, step: Step)
    requires step.Commit?
    ensures StoresOnlyResults(s, Next(s, step).0)
  {
  }

  lemma OtherStepsStoreNothing(s: Local, step: Step)
    requires !step.Receive? && !step.Commit?
    ensures StoresOnlyResults(s, Next(s, step).0)
  {
  }

  lemma StepKeepsWholeStore(s: Local, step: Step)
    requires WholeStore(s)
    ensures WholeStore(Next(s, step).0)
  {
    if step.Receive? {
      ReceivingKeepsWholeStore(s, step);
    } else {
      if step.Commit? { CommitStoresItsResult(s, step); } else { OtherStepsStoreNothing(s, step); }
      StoringKeepsWholeStore(s, Next(s, step).0);
    }
  }

  /** Over every run the stored library is whole, and passes the validation the next sync
      opens it with. */
  lemma {:induction false} StoredLibraryIsWhole(s: Local, steps: seq<Step>, n: nat)
    requires WholeStore(s) && n <= |steps|
    ensures WholeStore(After(s, steps, n))
  {
    if n == 0 {
    } else {
      StoredLibraryIsWhole(s, steps, n - 1);
      StepKeepsWholeStore(After(s, steps, n - 1), steps[n - 1]);
    }
  }

  /** So over every run what is stored never stops a sync: it can be opened, and the closing
      integrity check never fires. A capture is reconciled exactly when it is acceptable. */
  lemma StoredLibraryNeverStopsASync(s: Local, steps: seq<Step>, n: nat, f: Fetch)
    requires WholeStore(s) && n <= |steps| && After(s, steps, n).phase.Fetching? && f.validated.Some?
    ensures !StoredIsRefused(After(s, steps, n).db)
    ensures ReconciledWith(After(s, steps, n), f).Ok? <==> Acceptable(f.validated.value)
  {
    var reached := After(s, steps, n);
    var previous := if reached.phase.hadSnapshot then OpenedPrevious(reached.db) else None;
    StoredLibraryIsWhole(s, steps, n);
    OpenedIsWhole(reached.db);
    ReconciledIsAcceptable(previous, f.validated.value);
    if Acceptable(f.validated.value) { WholePreviousNeverFails(previous, f.validated.value); }
  }
}
