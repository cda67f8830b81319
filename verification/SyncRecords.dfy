/** The last-import record read back is either nothing or exactly the counts of the
    reconciliation that produced the stored snapshot. */
module SyncRecords {
  import opened Texts
  import opened Library
  import opened Reconcile
  import opened ReconcileLaws
  import opened Storage
  import opened Sync

  ghost predicate Honest(s: Local) {
    ReadBack(s.file, s.db).None? || ReadBack(s.file, s.db) == s.produced
  }

  // ---- The validity checks of a fresh record are dead ---------------------

  /** A result waiting to be sealed accounts for its entries. */
  ghost predicate SealingOk(p: Phase) {
    p.Sealing? ==>
      var r := p.result.report;
      |r.added| + |r.updated| + |r.reappeared| + |r.missingFromSource| == |p.result.snapshot.entries|
  }

  lemma ReceivedIsOk(s: Local, fetched: Result<Fetch, string>, unsealed: bool, at: Instant)
    requires s.phase.Fetching?
    ensures SealingOk(Received(s, fetched, unsealed, at).0.phase)
  {
    if Received(s, fetched, unsealed, at).0.phase.Sealing? {
      var c := fetched.value.validated.value;
      IntegrityIsWholeness(c.catalog, c.entries);
      ReportPartitionsEntries(if s.phase.hadSnapshot then OpenedPrevious(s.db) else None, c);
    }
  }

  lemma StepKeepsSealingOk(s: Local, step: Step)
    requires SealingOk(s.phase)
    ensures SealingOk(Next(s, step).0.phase)
  {
    if step.Receive? && s.phase.Fetching? { ReceivedIsOk(s, step.fetched, step.unsealed, step.at); }
  }

  /** Whenever the save is accepted the counts are recordable: the record is written
      exactly if the file can be. */
  lemma AcceptedSaveIsRecordable(s: Local, rq: SaveRequest, sealed: Sealed, at: Instant)
    requires s.phase.Sealing? && SealingOk(s.phase) && rq == RequestOf(s.phase, sealed, at)
    requires SaveError(s.db, rq).None?
    ensures ValidCounts(CountsOf(s.phase.result.report)) && s.phase.owner != ""
  {
  }

  // ---- Records and generations --------------------------------------------

  /** A parsed record is of the present or an earlier generation of the stored snapshot,
      and one of the present generation carries the counts that produced it. */
  ghost predicate RecordInv(s: Local) {
    && SealingOk(s.phase)
    && (s.file.Parsed? ==>
          && s.db.snapshot.Some? && s.file.raw.generation.Some?
          && s.file.raw.generation.value <= Generation(s.db)
          && (s.file.raw.generation.value == Generation(s.db) ==> s.file.raw.counts == s.produced))
  }

  predicate ErasesCompletely(step: Step) {
    && (step.DeleteLocal? ==> step.markerWrites && step.recordClears)
    && (step.PurgeAll? ==> step.markerWrites && step.recordClears)
  }

  lemma CommitKeepsRecordInv(s: Local, step: Step)
    requires RecordInv(s) && step.Commit?
    ensures RecordInv(Next(s, step).0)
  {
    StepKeepsSealingOk(s, step);
  }

  lemma ErasureKeepsRecordInv(s: Local, step: Step)
    requires RecordInv(s) && ErasesCompletely(step) && Erases(step)
    ensures RecordInv(Next(s, step).0)
  {
    StepKeepsSealingOk(s, step);
  }

  /** No other step touches the record, the snapshot or what produced it. */
  lemma OtherStepsKeepRecord(s: Local, step: Step)
    requires !step.Commit? && !Erases(step)
    ensures var s' := Next(s, step).0;
      s'.file == s.file && s'.db.snapshot == s.db.snapshot && s'.produced == s.produced
  {
  }

  lemma StepKeepsRecordInv(s: Local, step: Step)
    requires RecordInv(s) && ErasesCompletely(step)
    ensures RecordInv(Next(s, step).0)
  {
    if step.Commit? {
      CommitKeepsRecordInv(s, step);
    } else if Erases(step) {
      ErasureKeepsRecordInv(s, step);
    } else {
      OtherStepsKeepRecord(s, step);
      StepKeepsSealingOk(s, step);
    }
  }

  lemma RecordInvIsHonest(s: Local)
    requires RecordInv(s)
    ensures Honest(s)
  {
  }

  /** If every erasure removes the record, every record ever read back is honest: whatever
      fails elsewhere, and even when a fresh record cannot be written. */
  lemma {:induction false} RecordsAreHonest(s: Local, steps: seq<Step>, n: nat)
    requires RecordInv(s) && n <= |steps|
    requires forall j :: 0 <= j < n ==> ErasesCompletely(steps[j])
    ensures RecordInv(After(s, steps, n)) && Honest(After(s, steps, n))
  {
    if n == 0 {
    } else {
      RecordsAreHonest(s, steps, n - 1);
      StepKeepsRecordInv(After(s, steps, n - 1), steps[n - 1]);
    }
    RecordInvIsHonest(After(s, steps, n));
  }

  /** What still holds when a record outlives an erasure. */
  ghost predicate WeakRecordInv(s: Local) {
    && SealingOk(s.phase)
    && (s.file.Parsed? ==>
          && s.file.raw.generation.Some? && s.file.raw.generation.value > 0
          && (s.file.raw.generation.value == Generation(s.db) ==> s.file.raw.counts == s.produced))
  }

  predicate RecordsEveryCommit(step: Step) {
    step.Commit? ==> step.recordWrites && step.lifting.Lifted?
  }

  lemma CommitKeepsWeakRecordInv(s: Local, step: Step)
    requires WeakRecordInv(s) && RecordsEveryCommit(step) && step.Commit?
    ensures WeakRecordInv(Next(s, step).0)
  {
    StepKeepsSealingOk(s, step);
    if MovesSnapshot(s, step) {
      var sealed := SealedBy(s.phase, step.seal).value;
      AcceptedSaveIsRecordable(s, RequestOf(s.phase, sealed, step.at), sealed, step.at);
    }
  }

  lemma ErasureKeepsWeakRecordInv(s: Local, step: Step)
    requires WeakRecordInv(s) && Erases(step)
    ensures WeakRecordInv(Next(s, step).0)
  {
    StepKeepsSealingOk(s, step);
  }

  lemma StepKeepsWeakRecordInv(s: Local, step: Step)
    requires WeakRecordInv(s) && RecordsEveryCommit(step)
    ensures WeakRecordInv(Next(s, step).0)
  {
    if step.Commit? {
      CommitKeepsWeakRecordInv(s, step);
    } else if Erases(step) {
      ErasureKeepsWeakRecordInv(s, step);
    } else {
      OtherStepsKeepRecord(s, step);
      StepKeepsSealingOk(s, step);
    }
  }

  /** If every commit writes its record, every record read back is honest: whatever an
      erasure leaves behind. */
  lemma {:induction false} WrittenRecordsAreHonest(s: Local, steps: seq<Step>, n: nat)
    requires WeakRecordInv(s) && n <= |steps|
    requires forall j :: 0 <= j < n ==> RecordsEveryCommit(steps[j])
    ensures WeakRecordInv(After(s, steps, n)) && Honest(After(s, steps, n))
  {
    if n == 0 {
    } else {
      WrittenRecordsAreHonest(s, steps, n - 1);
      StepKeepsWeakRecordInv(After(s, steps, n - 1), steps[n - 1]);
    }
  }

  // ---- When both fail -----------------------------------------------------

  /** A valid record on disk that names the next generation of the syncing account, with
      other counts: what an erasure that could not remove the file can leave behind. */
  ghost predicate StaleRecordWaits(s: Local)
    requires s.phase.Sealing?
  {
    s.file.Parsed?
    && var read := ValidatedCounts(s.file.raw, Some(s.phase.owner), Generation(s.db) + 1);
       read.Some? && read.value != CountsOf(s.phase.result.report)
  }

  /** What a commit that moves the snapshot leaves of what a record is read against. */
  lemma MovedSnapshot(s: Local, step: Step)
    requires MovesSnapshot(s, step)
    ensures var s' := Next(s, step).0;
      && s'.db.snapshot.Some? && StoredAccount(s'.db) == Some(s.phase.owner) && Generation(s'.db) == Generation(s.db) + 1
      && s'.produced == Some(CountsOf(s.phase.result.report))
      && s'.file == if Next(s, step).1.Synced? then
           RecordedFile(s.file, s.phase.owner, Generation(s'.db), s.phase.result.report.observedAt,
                        CountsOf(s.phase.result.report), step.recordWrites, step.at)
         else s.file
  {
  }

  /** After every commit that moves the snapshot the record read back is honest exactly if
      it was written, which takes a sync that succeeds, or no such record was waiting. */
  lemma CommitIsHonestExactly(s: Local, step: Step)
    requires SealingOk(s.phase) && MovesSnapshot(s, step)
    ensures Honest(Next(s, step).0) <==> (Next(s, step).1.Synced? && step.recordWrites) || !StaleRecordWaits(s)
  {
    var sealed := SealedBy(s.phase, step.seal).value;
    AcceptedSaveIsRecordable(s, RequestOf(s.phase, sealed, step.at), sealed, step.at);
    MovedSnapshot(s, step);
  }
}
