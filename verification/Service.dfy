/** The service object of src/sync/private-alpha-service.js: each uninterrupted stretch of
    a sync, and the erasures, as methods over the store and the last-import file. */
module Service {
  import opened Texts
  import opened Library
  import opened Reconcile
  import opened Storage
  import opened Reopening
  import opened Sync
  import opened Stores

  const ACCOUNT_JOIN_FRESHNESS_MS := 120000

  class PrivateAlphaService {
    const store: EncryptedSnapshotStore
    var file: RecordFile
    var phase: Phase
    var quarantined: bool
    var joinAt: Option<Instant>
    ghost var produced: Option<Counts>

    constructor (store: EncryptedSnapshotStore, file: RecordFile, ghost produced: Option<Counts>)
      ensures this.store == store && this.file == file && phase == Idle && this.produced == produced
      ensures !quarantined && joinAt == None
    {
      this.store := store;
      this.file := file;
      phase, quarantined, joinAt := Idle, false, None;
      this.produced := produced;
    }

    ghost function State(): Local
      reads this, store, store.database
    {
      Local(store.database.State(), store.marker, file, phase, produced)
    }

    method StartSync(trigger: Trigger) returns (r: Response)
      modifies this`phase
      ensures (State(), r) == Next(old(State()), Start(trigger))
    {
      if !phase.Idle? { return Waiting; }
      if trigger != Manual && Suppressed(store.marker) { return Refused("local-data-suppressed"); }
      phase := Joining(trigger, StoredAccount(store.database.State()));
      r := Waiting;
    }

    /** Compares the account that answers with the one stored before it was asked; without a
        stored account nobody is asked. */
    method ResolveAccountJoin(stored: Option<string>, connected: Option<Option<string>>, at: Instant) returns (answered: bool)
      modifies this`quarantined, this`joinAt
      ensures answered <==> stored.None? || connected.Some?
      ensures !answered ==> quarantined == old(quarantined) && joinAt == old(joinAt)
      ensures answered ==> joinAt == Some(at) && (quarantined <==> stored.Some? && Quarantined(connected.value, stored))
    {
      if stored.None? {
        quarantined, joinAt := false, Some(at);
        return true;
      }
      if connected.None? { return false; }
      quarantined := connected.value.Some? && connected.value.value != stored.value;
      joinAt := Some(at);
      answered := true;
    }

    method ResolveJoin(connected: Option<Option<string>>, markerClears: bool, at: Instant) returns (r: Response)
      requires phase.Joining?
      modifies this`phase, this`quarantined, this`joinAt, store`marker, store.database`sync
      ensures (State(), r) == Next(old(State()), Join(connected, markerClears, at))
      ensures r == Refused("connector") ==> quarantined == old(quarantined) && joinAt == old(joinAt)
      ensures r != Refused("connector") ==>
        joinAt == Some(at) && (quarantined <==> r == Refused("account-mismatch-local-data-quarantined"))
    {
      var stored, trigger := phase.stored, phase.trigger;
      phase := Idle;
      var answered := ResolveAccountJoin(stored, connected, at);
      if !answered { return Refused("connector"); }
      if quarantined { return Refused("account-mismatch-local-data-quarantined"); }
      if trigger == Manual && Suppressed(store.marker) {
        var lifted := store.ClearLocalDataSuppression(markerClears);
        if !lifted { return Refused("marker"); }
      }
      phase := Fetching(StoredAccount(store.database.State()), store.database.snapshot.Some?);
      store.RecordAttempt(at);
      r := Joined;
    }

    method FailSync(code: string, at: Instant) returns (r: Response)
      modifies this`phase, store.database`sync
      ensures (State(), r) == Fail(old(State()), code, at)
    {
      store.RecordFailure(code, at);
      phase := Idle;
      r := SyncFailed(code);
    }

    method ReceiveCapture(fetched: Result<Fetch, string>, unsealed: bool, at: Instant) returns (r: Response)
      requires phase.Fetching?
      modifies this`phase, store.database`sync
      ensures (State(), r) == Received(old(State()), fetched, unsealed, at)
    {
      if fetched.Err? { r := FailSync(fetched.error, at); return; }
      var f := fetched.value;
      if phase.account.Some? && f.account != phase.account {
        r := FailSync("different-account-local-data-exists", at);
        return;
      }
      if f.validated.None? { r := FailSync("snapshot-invalid", at); return; }
      if |f.validated.value.entries| != f.itemCount { r := FailSync("library-count-mismatch", at); return; }
      if f.complete.Some? && !f.complete.value { r := FailSync("library-capture-incomplete", at); return; }
      var previous: Option<Snapshot> := None;
      if phase.hadSnapshot && store.database.snapshot.Some? {
        if !unsealed { r := FailSync("private-alpha-operation-failed", at); return; }
        var content := StoredContent(store.database.State());
        if content.Some? {
          var again := Reopen(content.value);
          if again.Err? { r := FailSync("snapshot-invalid", at); return; }
          previous := Some(again.value);
        }
      }
      var reconciled := ReconcileSnapshot(previous, f.validated, true);
      if reconciled.Err? { r := FailSync("reconcile", at); return; }
      if f.account.None? { r := FailSync("account-key-invalid", at); return; }
      phase := Sealing(f.account.value, f.marketplace, reconciled.value, f.basis);
      r := Waiting;
    }

    method RecordLastImport(account: string, generation: nat, report: Report, writes: bool, at: Instant)
      modifies this`file
      ensures file == RecordedFile(old(file), account, generation, report.observedAt, CountsOf(report), writes, at)
    {
      if account == "" { return; }
      var counts := Counts(|report.added|, |report.updated|, |report.reappeared|, |report.missingFromSource|);
      if !ValidCounts(counts) || !writes { return; }
      file := Parsed(RawRecord(RECORD_VERSION, RECORD_BASIS, RECORD_AUTHORITY, Some(report.observedAt), Some(at),
                               Some(generation), account, Some(counts)));
    }

    method CommitSync(seal: SealAnswer, statementsOk: bool, lifting: Lifting, recordWrites: bool, at: Instant)
      returns (r: Response)
      requires phase.Sealing?
      modifies this`phase, this`file, this`produced, store`marker, store.database
      ensures (State(), r) == Committed(old(State()), seal, statementsOk, lifting, recordWrites, at)
    {
      var p, sealed := phase, SealedBy(phase, seal);
      if sealed.None? { r := FailSync("reconciled-seal-invalid", at); return; }
      var saved := store.Save(RequestOf(p, sealed.value, at), if statementsOk then None else Some(0), lifting);
      if saved.Ok? || saved.error.ProcessEnded? || saved.error.MarkerNotLifted? {
        produced := Some(CountsOf(p.result.report));
      }
      if saved.Err? {
        if saved.error.ProcessEnded? {
          phase := Idle;
          return Nothing;
        }
        var unexpected := saved.error.StatementFailed? || saved.error.MarkerNotLifted?;
        r := FailSync(if unexpected then "private-alpha-operation-failed" else "save-refused", at);
        return;
      }
      RecordLastImport(p.owner, saved.value, p.result.report, recordWrites, at);
      phase := Idle;
      r := Synced(saved.value);
    }

    /** Needs a verdict in this session's favour that is at most two minutes old. */
    method DeleteLocalSnapshot(statementsOk: bool, markerWrites: bool, recordClears: bool, at: Instant) returns (r: Response)
      modifies this`file, this`produced, store`marker, store.database
      ensures
        var recent := joinAt.Some? && at - joinAt.value <= 120_000;
        && (quarantined ==> State() == old(State()) && r == Refused("account-mismatch-local-data-quarantined"))
        && (!quarantined && !recent ==> State() == old(State()) && r == Refused("account-join-stale"))
        && (!quarantined && recent && !statementsOk ==> State() == old(State()) && r == ErasureFailed)
        && (!quarantined && recent && statementsOk ==>
              (State(), r) == Next(old(State()), DeleteLocal(markerWrites, recordClears, at)))
    {
      if quarantined { return Refused("account-mismatch-local-data-quarantined"); }
      if joinAt.None? || at - joinAt.value > ACCOUNT_JOIN_FRESHNESS_MS { return Refused("account-join-stale"); }
      var ok := store.DeleteLocalSnapshot(statementsOk, markerWrites, at);
      if statementsOk { produced := None; }
      if !ok { return ErasureFailed; }
      if recordClears { file := NoFile; }
      r := Erased;
    }

    /** After its own account join, for which `stored` was read. */
    method PurgeAllLocalData(stored: Option<string>, connected: Option<Option<string>>, joinedAt: Instant,
                             statementsOk: bool, markerWrites: bool, recordClears: bool, at: Instant)
      returns (r: Response)
      modifies this`file, this`produced, this`quarantined, this`joinAt, store`marker, store.database
      ensures
        var answered := stored.None? || connected.Some?;
        var mismatch := answered && stored.Some? && Quarantined(connected.value, stored);
        && (!answered ==> State() == old(State()) && r == Refused("connector"))
        && (answered ==> quarantined == mismatch && joinAt == Some(joinedAt))
        && (mismatch ==> State() == old(State()) && r == Refused("account-mismatch-local-data-quarantined"))
        && (answered && !mismatch && !statementsOk ==> State() == old(State()) && r == ErasureFailed)
        && (answered && !mismatch && statementsOk ==>
              (State(), r) == Next(old(State()), PurgeAll(markerWrites, recordClears, at)))
    {
      var answered := ResolveAccountJoin(stored, connected, joinedAt);
      if !answered { return Refused("connector"); }
      if quarantined { return Refused("account-mismatch-local-data-quarantined"); }
      var ok := store.PurgeAllLocalData(statementsOk, markerWrites, at);
      if statementsOk { produced := None; }
      if !ok { return ErasureFailed; }
      if recordClears { file := NoFile; }
      r := Erased;
    }

    method LastImportRecord() returns (r: Option<Counts>)
      ensures r == ReadBack(file, store.database.State())
    {
      if !file.Parsed? { return None; }
      r := ValidatedCounts(file.raw, StoredAccount(store.database.State()), Generation(store.database.State()));
    }
  }
}
