/** Syncs that may fail anywhere, deletions and purges: src/sync/private-alpha-service.js.
    A sync suspends on the connector, so it is a chain of uninterrupted steps; at most one
    is in flight. */
module Sync {
  import opened Texts
  import opened Library
  import opened Reconcile
  import opened Storage
  import opened Reopening
  import Reviews

  datatype Trigger = Manual | Automatic

  /** The suppression marker file. An unreadable one still suppresses. */
  datatype Marker = NoMarker | DeletedByOwner(at: Instant) | OtherContent | UnreadableMarker

  predicate Suppressed(m: Marker) { m.DeletedByOwner? || m.UnreadableMarker? }

  datatype Counts = Counts(added: int, updated: int, reappeared: int, missingFromSource: int)

  /** The last-import file as JSON: a field is None where the stored value is malformed.
      The account binding is symbolic: it names the account it was computed from. */
  datatype RawRecord = RawRecord(
    version: int, basis: string, authority: string, observedAt: Option<Instant>, recordedAt: Option<Instant>,
    generation: Option<int>, boundTo: string, counts: Option<Counts>)

  datatype RecordFile = NoFile | Unparsable | Parsed(raw: RawRecord)

  const RECORD_VERSION := 1
  const RECORD_BASIS := "sync-reconciliation"
  const RECORD_AUTHORITY := "requested-sync"
  const MAX_IMPORT_COUNT := 20000

  predicate ValidCount(n: int) { 0 <= n <= MAX_IMPORT_COUNT }

  predicate ValidCounts(c: Counts) {
    ValidCount(c.added) && ValidCount(c.updated) && ValidCount(c.reappeared) && ValidCount(c.missingFromSource)
  }

  /** `validateLastImportRecord`: the counts, or nothing that may honestly be claimed. */
  function ValidatedCounts(raw: RawRecord, account: Option<string>, generation: int): Option<Counts> {
    if raw.version != RECORD_VERSION then None
    else if raw.basis != RECORD_BASIS || raw.authority != RECORD_AUTHORITY then None
    else if raw.observedAt.None? || raw.recordedAt.None? then None
    else if raw.generation.None? || raw.generation.value < 0 then None
    else if account.None? || account.value == "" || raw.boundTo != account.value then None
    else if raw.generation.value != generation then None
    else if raw.counts.None? || !ValidCounts(raw.counts.value) then None
    else raw.counts
  }

  /** `lastImportRecord()`. */
  function ReadBack(file: RecordFile, db: Db): Option<Counts> {
    if file.Parsed? then ValidatedCounts(file.raw, StoredAccount(db), Generation(db)) else None
  }

  function CountsOf(r: Report): Counts {
    Counts(|r.added|, |r.updated|, |r.reappeared|, |r.missingFromSource|)
  }

  /** What a connector sync yields. `validated` is None when the live snapshot is refused. */
  datatype Fetch = Fetch(account: Option<string>, marketplace: string, validated: Option<Snapshot>,
                         itemCount: int, complete: Option<bool>, basis: Option<string>)

  datatype Phase =
    | Idle
    | Joining(trigger: Trigger, stored: Option<string>)
    | Fetching(account: Option<string>, hadSnapshot: bool)
    | Sealing(owner: string, marketplace: string, result: Reconciled, basis: Option<string>)

  /** `produced` remembers the counts of the reconciliation that produced the stored
      snapshot; nothing reads it. */
  datatype Local = Local(db: Db, marker: Marker, file: RecordFile, phase: Phase, produced: Option<Counts>)

  /** What the sealer answers: nothing, a blob the store refuses, or the sealed result. */
  datatype SealAnswer = SealRefused | SealedOtherwise | SealedAsAsked

  /** How lifting the marker ends after the rows of a save have been committed. */
  datatype Lifting = Lifted | CannotLift | CrashedFirst

  datatype Step =
    | Start(trigger: Trigger)
    | Join(connected: Option<Option<string>>, markerClears: bool, at: Instant)
    | Receive(fetched: Result<Fetch, string>, unsealed: bool, at: Instant)
    | Commit(seal: SealAnswer, statementsOk: bool, lifting: Lifting, recordWrites: bool, at: Instant)
    | DeleteLocal(markerWrites: bool, recordClears: bool, at: Instant)
    | PurgeAll(markerWrites: bool, recordClears: bool, at: Instant)
    | WriteReviews(reviews: Reviews.Table)
    | Crash

  datatype Response =
    | Waiting | Joined | Refused(code: string) | SyncFailed(code: string) | Synced(generation: nat)
    | Erased | ErasureFailed | Nothing

  /** `accountJoin`: quarantined only by two accounts that differ. */
  predicate Quarantined(connected: Option<string>, stored: Option<string>) {
    stored.Some? && connected.Some? && connected.value != stored.value
  }

  function Fail(s: Local, code: string, at: Instant): (Local, Response) {
    (s.(db := FailedDb(s.db, code, at), phase := Idle), SyncFailed(code))
  }

  /** The snapshot the store holds, unsealed; None without one. */
  function StoredContent(db: Db): Option<Snapshot> {
    if db.snapshot.Some? && db.snapshot.value.sealed.Sealed? then Some(db.snapshot.value.sealed.content) else None
  }

  /** The stored snapshot does not pass the validation it is opened with. */
  ghost predicate StoredIsRefused(db: Db) { StoredContent(db).Some? && Reopened(StoredContent(db).value).Err? }

  /** The stored snapshot as reconciliation gets it: unsealed and validated again. */
  ghost function OpenedPrevious(db: Db): Option<Snapshot> {
    if StoredContent(db).Some? && Reopened(StoredContent(db).value).Ok? then Some(Reopened(StoredContent(db).value).value)
    else None
  }

  ghost function ReconciledWith(s: Local, f: Fetch): Result<Reconciled, ReconcileError>
    requires s.phase.Fetching?
  {
    Reconciliation(if s.phase.hadSnapshot then OpenedPrevious(s.db) else None, f.validated, true)
  }

  /** Why a fetched result is not promoted, in the order of the checks. */
  ghost function ReceiveError(s: Local, fetched: Result<Fetch, string>, unsealed: bool): Option<string>
    requires s.phase.Fetching?
  {
    if fetched.Err? then Some(fetched.error)
    else
      var f := fetched.value;
      if s.phase.account.Some? && f.account != s.phase.account then Some("different-account-local-data-exists")
      else if f.validated.None? then Some("snapshot-invalid")
      else if |f.validated.value.entries| != f.itemCount then Some("library-count-mismatch")
      else if f.complete.Some? && !f.complete.value then Some("library-capture-incomplete")
      else if s.phase.hadSnapshot && s.db.snapshot.Some? && !unsealed then Some("private-alpha-operation-failed")
      else if s.phase.hadSnapshot && StoredIsRefused(s.db) then Some("snapshot-invalid")
      else if ReconciledWith(s, f).Err? then Some("reconcile")
      else if f.account.None? then Some("account-key-invalid")
      else None
  }

  ghost function Received(s: Local, fetched: Result<Fetch, string>, unsealed: bool, at: Instant): (Local, Response)
    requires s.phase.Fetching?
  {
    var error := ReceiveError(s, fetched, unsealed);
    if error.Some? then Fail(s, error.value, at)
    else
      var f := fetched.value;
      (s.(phase := Sealing(f.account.value, f.marketplace, ReconciledWith(s, f).value, f.basis)), Waiting)
  }

  function SealedBy(p: Phase, seal: SealAnswer): Option<Sealed>
    requires p.Sealing?
  {
    match seal
    case SealRefused => None
    case SealedOtherwise => Some(NotSealed)
    case SealedAsAsked => Some(Sealed(p.result.snapshot))
  }

  function RequestOf(p: Phase, sealed: Sealed, at: Instant): SaveRequest
    requires p.Sealing?
  {
    SaveRequest(p.owner, p.marketplace, |p.result.snapshot.entries|, p.result.report.observedAt, sealed, p.basis, at)
  }

  /** `#recordLastImport`: nothing is written unless everything recorded is valid. */
  function RecordedFile(file: RecordFile, account: string, generation: nat, observedAt: Instant, counts: Counts,
                        writes: bool, at: Instant): RecordFile
  {
    if account == "" || !ValidCounts(counts) || !writes then file
    else Parsed(RawRecord(RECORD_VERSION, RECORD_BASIS, RECORD_AUTHORITY, Some(observedAt), Some(at),
                          Some(generation), account, Some(counts)))
  }

  function Committed(s: Local, seal: SealAnswer, statementsOk: bool, lifting: Lifting, recordWrites: bool, at: Instant)
    : (Local, Response)
    requires s.phase.Sealing?
  {
    var sealed := SealedBy(s.phase, seal);
    if sealed.None? then Fail(s, "reconciled-seal-invalid", at)
    else
      var p, rq := s.phase, RequestOf(s.phase, sealed.value, at);
      if SaveError(s.db, rq).Some? then Fail(s, "save-refused", at)
      else if !statementsOk then Fail(s, "private-alpha-operation-failed", at)
      else
        var counts := CountsOf(p.result.report);
        var saved := s.(db := SavedDb(s.db, rq), produced := Some(counts));
        if lifting.CrashedFirst? then (saved.(phase := Idle), Nothing)
        else if !s.marker.NoMarker? && lifting.CannotLift? then Fail(saved, "private-alpha-operation-failed", at)
        else
          (saved.(marker := NoMarker, phase := Idle,
                  file := RecordedFile(s.file, p.owner, Generation(saved.db), p.result.report.observedAt, counts,
                                       recordWrites, at)),
           Synced(Generation(saved.db)))
  }

  /** The rows go first, then the marker is written, then the record is removed. */
  function Erasure(s: Local, db: Db, markerWrites: bool, recordClears: bool, at: Instant): (Local, Response) {
    var gone := s.(db := db, produced := None);
    if !markerWrites then (gone, ErasureFailed)
    else (gone.(marker := DeletedByOwner(at), file := if recordClears then NoFile else s.file), Erased)
  }

  ghost function Next(s: Local, step: Step): (Local, Response) {
    match step
    case Start(trigger) =>
      if !s.phase.Idle? then (s, Waiting)
      else if trigger.Automatic? && Suppressed(s.marker) then (s, Refused("local-data-suppressed"))
      else (s.(phase := Joining(trigger, StoredAccount(s.db))), Waiting)
    case Join(connected, markerClears, at) =>
      if !s.phase.Joining? then (s, Nothing)
      else if s.phase.stored.Some? && connected.None? then (s.(phase := Idle), Refused("connector"))
      else
        var account := if s.phase.stored.Some? then connected.value else None;
        if Quarantined(account, s.phase.stored) then
          (s.(phase := Idle), Refused("account-mismatch-local-data-quarantined"))
        else
          var lifts := s.phase.trigger.Manual? && Suppressed(s.marker);
          if lifts && !markerClears then (s.(phase := Idle), Refused("marker"))
          else
            (s.(marker := if lifts then NoMarker else s.marker,
                phase := Fetching(StoredAccount(s.db), s.db.snapshot.Some?),
                db := AttemptedDb(s.db, at)), Joined)
    case Receive(fetched, unsealed, at) =>
      if s.phase.Fetching? then Received(s, fetched, unsealed, at) else (s, Nothing)
    case Commit(seal, statementsOk, lifting, recordWrites, at) =>
      if s.phase.Sealing? then Committed(s, seal, statementsOk, lifting, recordWrites, at) else (s, Nothing)
    case DeleteLocal(markerWrites, recordClears, at) =>
      Erasure(s, SnapshotDeletedDb(s.db), markerWrites, recordClears, at)
    case PurgeAll(markerWrites, recordClears, at) =>
      Erasure(s, EMPTY_DB, markerWrites, recordClears, at)
    case WriteReviews(reviews) => (s.(db := s.db.(reviews := reviews)), Nothing)
    case Crash => (s.(phase := Idle), Nothing)
  }

  ghost function After(s: Local, steps: seq<Step>, n: nat): Local
    requires n <= |steps|
  {
    if n == 0 then s else Next(After(s, steps, n - 1), steps[n - 1]).0
  }

  ghost function ResponseAt(s: Local, steps: seq<Step>, k: nat): Response
    requires k < |steps|
  {
    Next(After(s, steps, k), steps[k]).1
  }

  predicate Erases(step: Step) { step.DeleteLocal? || step.PurgeAll? }

  // ---- A failed sync ------------------------------------------------------

  /** The rows of a save are committed. */
  predicate MovesSnapshot(s: Local, step: Step) {
    step.Commit? && s.phase.Sealing? && step.statementsOk
    && SealedBy(s.phase, step.seal).Some?
    && SaveError(s.db, RequestOf(s.phase, SealedBy(s.phase, step.seal).value, step.at)).None?
  }

  /** The snapshot moved, but the sync does not say so: a marker on disk could not be lifted,
      or the process ended first. */
  predicate CommitsUnawares(s: Local, step: Step) {
    MovesSnapshot(s, step) && (step.lifting.CrashedFirst? || (!s.marker.NoMarker? && step.lifting.CannotLift?))
  }

  predicate KeepsLibrary(s: Local, s': Local) {
    s'.db.snapshot == s.db.snapshot && LastSuccess(s'.db) == LastSuccess(s.db) && s'.produced == s.produced
  }

  lemma FailedCommitKeepsLibraryExactly(s: Local, step: Step)
    requires step.Commit? && !Next(s, step).1.Synced?
    ensures KeepsLibrary(s, Next(s, step).0) <==> !CommitsUnawares(s, step)
  {
    if CommitsUnawares(s, step) {
      assert Generation(Next(s, step).0.db) == Generation(s.db) + 1;
    }
  }

  lemma OtherStepsKeepLibrary(s: Local, step: Step)
    requires !step.Commit? && !Erases(step)
    ensures KeepsLibrary(s, Next(s, step).0)
  {
    if step.Receive? { ReceivingKeepsLibrary(s, step); }
    if step.Join? { JoiningKeepsLibrary(s, step); }
  }

  lemma ReceivingKeepsLibrary(s: Local, step: Step)
    requires step.Receive?
    ensures KeepsLibrary(s, Next(s, step).0)
  {
  }

  lemma JoiningKeepsLibrary(s: Local, step: Step)
    requires step.Join?
    ensures KeepsLibrary(s, Next(s, step).0)
  {
  }

  /** A step of a sync that does not succeed leaves the snapshot, its generation and the
      last success as they were, exactly unless its rows were committed unawares. */
  lemma FailedStepKeepsLibraryExactly(s: Local, step: Step)
    requires !Erases(step) && !Next(s, step).1.Synced?
    ensures KeepsLibrary(s, Next(s, step).0) <==> !CommitsUnawares(s, step)
  {
    if step.Commit? {
      FailedCommitKeepsLibraryExactly(s, step);
    } else {
      OtherStepsKeepLibrary(s, step);
    }
  }

  /** From its start to its failure, whatever else it did, a sync that commits nothing
      unawares leaves the library and its success time untouched. */
  lemma {:induction false} FailedSyncKeepsLibrary(s: Local, steps: seq<Step>, i: nat, k: nat)
    requires i <= k <= |steps|
    requires forall j :: i <= j < k ==>
      !Erases(steps[j]) && !ResponseAt(s, steps, j).Synced? && !CommitsUnawares(After(s, steps, j), steps[j])
    ensures After(s, steps, k).db.snapshot == After(s, steps, i).db.snapshot
    ensures Generation(After(s, steps, k).db) == Generation(After(s, steps, i).db)
    ensures LastSuccess(After(s, steps, k).db) == LastSuccess(After(s, steps, i).db)
  {
    if i == k {
    } else {
      FailedSyncKeepsLibrary(s, steps, i, k - 1);
      assert !ResponseAt(s, steps, k - 1).Synced?;
      FailedStepKeepsLibraryExactly(After(s, steps, k - 1), steps[k - 1]);
    }
  }

  // ---- Suppression after a deletion ---------------------------------------

  ghost predicate StaysErased(s: Local) {
    s.phase.Idle? && s.db.snapshot.None? && Suppressed(s.marker)
  }

  lemma ErasedUntilManualStep(s: Local, step: Step)
    requires StaysErased(s) && step != Start(Manual)
    ensures StaysErased(Next(s, step).0)
  {
  }

  /** After an erasure that completed with no sync in flight, there is no snapshot, and
      automatic syncs are refused, until a manual sync starts - across crashes, failures
      and further erasures. */
  lemma {:induction false} NoSnapshotReturnsUnasked(s: Local, steps: seq<Step>, d: nat, k: nat)
    requires d < k <= |steps|
    requires Erases(steps[d]) && ResponseAt(s, steps, d) == Erased && After(s, steps, d).phase.Idle?
    requires forall j :: d < j < k ==> steps[j] != Start(Manual)
    ensures After(s, steps, k).db.snapshot.None? && Suppressed(After(s, steps, k).marker)
    ensures StaysErased(After(s, steps, k))
    decreases k - d
  {
    if k == d + 1 {
      assert StaysErased(After(s, steps, k));
    } else {
      NoSnapshotReturnsUnasked(s, steps, d, k - 1);
      ErasedUntilManualStep(After(s, steps, k - 1), steps[k - 1]);
    }
  }

  /** A manual sync lifts the suppression as soon as its account join passes, whatever
      becomes of its fetch. */
  lemma ManualSyncLiftsSuppressionFirst(s: Local, at: Instant, code: string)
    requires StaysErased(s)
    ensures
      var joined := Next(Next(s, Start(Manual)).0, Join(Some(None), true, at));
      var failed := Next(joined.0, Receive(Err(code), true, at));
      && joined.1 == Joined && failed.1 == SyncFailed(code)
      && failed.0.db.snapshot.None? && !Suppressed(failed.0.marker)
      && Next(failed.0, Start(Automatic)).0.phase.Joining?
  {
  }
}
