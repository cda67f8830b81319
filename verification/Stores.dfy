/** The two stores over one open database, as the objects of src/store/feedback-store.js
    and src/store/encrypted-snapshot-store.js. */
module Stores {
  import opened Texts
  import opened Library
  import opened Feedback
  import opened Reviews
  import opened Storage
  import opened Sync

  /** The rows of the open container. */
  class Database {
    var snapshot: Option<SnapshotRow>
    var sync: Option<SyncRow>
    var anchor: Option<Anchor>
    var reviews: Table

    constructor ()
      ensures State() == EMPTY_DB
    {
      snapshot, sync, anchor, reviews := None, None, None, map[];
    }

    function State(): Db
      reads this
    {
      Db(snapshot, sync, anchor, reviews)
    }
  }

  class PrivateFeedbackStore {
    const database: Database
    const accountKey: string

    constructor (database: Database, accountKey: string)
      requires IsAccountKey(accountKey)
      ensures this.database == database && this.accountKey == accountKey
    {
      this.database := database;
      this.accountKey := accountKey;
    }

    function RowKey(bookId: string): Key { Key(accountKey, bookId) }

    /** The rows of the account that are not tombstones. */
    method Count() returns (n: nat)
      ensures n == |ActiveKeys(database.reviews, accountKey)|
    {
      var rows, todo, counted := database.reviews, database.reviews.Keys, {};
      n := 0;
      while todo != {}
        invariant todo <= rows.Keys
        invariant counted == ActiveKeys(rows, accountKey) - todo && n == |counted|
        decreases todo
      {
        var key :| key in todo;
        if key.account == accountKey && !rows[key].deleted {
          counted := counted + {key};
          n := n + 1;
        }
        todo := todo - {key};
      }
      assert counted == ActiveKeys(rows, accountKey);
    }

    /** `save` up to its first await. */
    method BeginSave(bookId: string, input: Result<Payload, FeedbackError>, expected: string)
      returns (r: Result<Pending, FeedbackError>)
      ensures r == Reviews.BeginSave(database.reviews, RowKey(bookId), input, expected)
    {
      if !IsBookId(bookId) { return Err(InvalidBookId); }
      if input.Err? { return Err(input.error); }
      var key := RowKey(bookId);
      var current := if key in database.reviews then Some(database.reviews[key]) else None;
      var currentRevision := if current.Some? then current.value.revision else ABSENT_REVISION;
      if expected != currentRevision { return Err(RevisionConflict); }
      r := Ok(Opening(key, input.value, current));
    }

    /** `save` between its two awaits. */
    method FinishOpen(p: Pending, unsealed: bool, now: Option<Feedback.Instant>, hex: string) returns (r: Opened)
      requires p.Opening? && p.key.account == accountKey
      ensures r == Reviews.FinishOpen(database.reviews, p, unsealed, now, hex)
    {
      var existing := Open(p.current, p.key, unsealed);
      if existing.Err? { return Failed(existing.error); }
      if existing.value.Some? && existing.value.value.payload == p.input {
        return NoChange(Saved(existing.value.value, p.current.value.revision, p.current.value.generation, true));
      }
      if existing.value.None? {
        var total := Count();
        if total >= MAX_RECORDS_PER_ACCOUNT { return Failed(AggregateLimitExceeded); }
      }
      if now.None? { return Failed(InvalidTimestamp); }
      var generation := (if p.current.Some? then p.current.value.generation else 0) + 1;
      var revision := IssueRevision(generation, hex);
      var record := BuildRecord(p.key, p.input, existing.value, now.value, revision, generation);
      r := Proceed(Reviews.Pending.Sealing(p.key, p.input, p.current, now.value, hex, revision, generation, record));
    }

    /** `save` after its last await: one transaction, undone if a statement fails. */
    method CommitSave(p: Pending, blobBytes: Option<nat>, statementsOk: bool) returns (r: Result<Saved, FeedbackError>)
      requires p.Sealing? && p.key.account == accountKey
      modifies database`reviews
      ensures statementsOk ==>
        database.reviews == CommitTable(old(database.reviews), p, blobBytes)
        && (r.Err? <==> CommitError(old(database.reviews), p, blobBytes).Some?)
        && (r.Err? ==> Some(r.error) == CommitError(old(database.reviews), p, blobBytes))
      ensures r.Ok? ==> r.value == Saved(p.record, p.revision, p.generation, false)
      ensures !statementsOk ==> r.Err?
      ensures r.Err? ==> database.reviews == old(database.reviews)
    {
      if blobBytes.None? { return Err(SealerFailure); }
      if blobBytes.value == 0 || blobBytes.value > MAX_SEALED_RECORD_BYTES { return Err(AggregateLimitExceeded); }
      var begin := database.reviews;
      var latest := if p.key in database.reviews then database.reviews[p.key].revision else ABSENT_REVISION;
      if latest != Token(p.current) { return Err(RevisionConflict); }
      database.reviews := database.reviews[p.key :=
        Row(p.generation, p.revision, false, Some(Seal(p.key, p.generation, p.record)))];
      if !statementsOk {
        database.reviews := begin;
        return Err(SealerFailure);
      }
      r := Ok(Saved(p.record, p.revision, p.generation, false));
    }

    /** A tombstone under a new token, undone if a statement fails. */
    method Delete(bookId: string, expected: string, hex: string, statementsOk: bool)
      returns (r: Result<(string, nat), FeedbackError>)
      modifies database`reviews
      ensures statementsOk ==>
        database.reviews == DeleteTable(old(database.reviews), RowKey(bookId), expected, hex)
        && (r.Err? <==> DeleteError(old(database.reviews), RowKey(bookId), expected).Some?)
        && (r.Err? ==> Some(r.error) == DeleteError(old(database.reviews), RowKey(bookId), expected))
      ensures r.Ok? ==>
        RowKey(bookId) in database.reviews
        && r.value == (database.reviews[RowKey(bookId)].revision, database.reviews[RowKey(bookId)].generation)
      ensures !statementsOk ==> r.Err?
      ensures r.Err? ==> database.reviews == old(database.reviews)
    {
      var key := RowKey(bookId);
      if !IsBookId(bookId) { return Err(InvalidBookId); }
      if key !in database.reviews { return Err(RecordNotFound); }
      var current := database.reviews[key];
      if expected != current.revision { return Err(RevisionConflict); }
      var generation := current.generation + 1;
      var revision := IssueRevision(generation, hex);
      var begin := database.reviews;
      database.reviews := database.reviews[key := Row(generation, revision, true, None)];
      if !statementsOk {
        database.reviews := begin;
        return Err(SealerFailure);
      }
      r := Ok((revision, generation));
    }

    /** False, and nothing gone, if the transaction fails. */
    method Purge(statementsOk: bool) returns (ok: bool)
      modifies database`reviews
      ensures ok == statementsOk
      ensures database.reviews == if ok then PurgeTable(old(database.reviews), accountKey) else old(database.reviews)
      ensures ok ==> ActiveKeys(database.reviews, accountKey) == {}
    {
      if statementsOk {
        database.reviews := map key | key in database.reviews && key.account != accountKey :: database.reviews[key];
      }
      ok := statementsOk;
    }
  }

  class EncryptedSnapshotStore {
    const database: Database
    var marker: Marker

    constructor (database: Database, marker: Marker)
      ensures this.database == database && this.marker == marker
    {
      this.database := database;
      this.marker := marker;
    }

    method RecordAttempt(at: Library.Instant)
      modifies database`sync
      ensures database.State() == AttemptedDb(old(database.State()), at)
    {
      if database.sync.Some? {
        database.sync := Some(database.sync.value.(lastAttemptAt := Some(at)));
      } else {
        database.sync := Some(SyncRow(Some(at), None, None, 0, None));
      }
    }

    method RecordFailure(code: string, at: Library.Instant)
      modifies database`sync
      ensures database.State() == FailedDb(old(database.State()), code, at)
    {
      if database.sync.Some? {
        database.sync := Some(database.sync.value.(lastAttemptAt := Some(at), lastErrorCode := Some(code)));
      } else {
        database.sync := Some(SyncRow(Some(at), None, Some(code), 0, None));
      }
    }

    /** Three rows in one transaction: after a failing statement every row is as before. A
        marker on disk is lifted after the commit; that the rows stand when it cannot be is
        what the two last errors say. */
    method Save(rq: SaveRequest, failing: Option<nat>, lifting: Lifting) returns (r: Result<nat, StoreError>)
      modifies database`snapshot, database`sync, database`anchor, this`marker
      ensures
        var committed := SaveError(old(database.State()), rq).None? && (failing.None? || failing.value > 2);
        && (SaveError(old(database.State()), rq).None? && committed ==> database.State() == SavedDb(old(database.State()), rq))
        && (!committed ==> database.State() == old(database.State()) && r.Err?)
        && (SaveError(old(database.State()), rq).Some? ==> r == Err(SaveError(old(database.State()), rq).value))
        && (SaveError(old(database.State()), rq).None? && !committed ==> r == Err(StatementFailed))
        && (committed && lifting.CrashedFirst? ==> r == Err(ProcessEnded))
        && (committed && lifting.CannotLift? && !old(marker).NoMarker? ==> r == Err(MarkerNotLifted))
        && (r.Ok? <==> committed && !lifting.CrashedFirst? && (lifting.Lifted? || old(marker).NoMarker?))
      ensures r.Ok? ==> r.value == Generation(old(database.State())) + 1
      ensures marker == if r.Ok? then NoMarker else old(marker)
    {
      var account, marketplace := StoredAccount(database.State()), StoredMarketplace(database.State());
      if account.Some? && account.value != rq.account { return Err(DifferentAccount); }
      if marketplace.Some? && marketplace.value != rq.marketplace { return Err(DifferentMarketplace); }
      if !IsAccountKey(rq.account) { return Err(AccountKeyInvalid); }
      if rq.marketplace != "us" { return Err(MarketplaceNotAllowed); }
      if rq.itemCount < 0 || rq.itemCount > MAX_ITEM_COUNT { return Err(ItemCountInvalid); }
      if rq.sealed.NotSealed? { return Err(SealedSnapshotInvalid); }

      var generation := (if database.snapshot.Some? then database.snapshot.value.generation else 0) + 1;
      var beforeSnapshot, beforeSync, beforeAnchor := database.snapshot, database.sync, database.anchor;
      if failing == Some(0) { return Err(StatementFailed); }
      database.snapshot := Some(SnapshotRow(rq.account, rq.marketplace, rq.itemCount, rq.observedAt, rq.sealed,
                                            generation, rq.basis));
      if failing == Some(1) {
        database.snapshot := beforeSnapshot;
        return Err(StatementFailed);
      }
      database.sync := Some(SyncRow(Some(rq.committedAt), Some(rq.committedAt), None, generation, Some(rq.observedAt)));
      if failing == Some(2) {
        database.snapshot, database.sync := beforeSnapshot, beforeSync;
        return Err(StatementFailed);
      }
      if beforeAnchor.Some? {
        database.anchor := Some(beforeAnchor.value.(marketplace := rq.marketplace, confirmedAt := rq.committedAt));
      } else {
        database.anchor := Some(Anchor(rq.account, rq.marketplace, rq.committedAt, rq.committedAt));
      }
      if lifting.CrashedFirst? { return Err(ProcessEnded); }
      var lifted := ClearLocalDataSuppression(lifting.Lifted?);
      if !lifted { return Err(MarkerNotLifted); }
      r := Ok(generation);
    }

    method RecordAccountAnchor(account: string, marketplace: string, at: Library.Instant) returns (r: Option<StoreError>)
      modifies database`anchor
      ensures database.State() == AnchoredDb(old(database.State()), account, marketplace, at)
      ensures r == if !IsAccountKey(account) then Some(AccountKeyInvalid)
                   else if old(database.anchor).Some? && old(database.anchor).value.account != account then Some(DifferentAccount)
                   else None
      ensures database.anchor == if r.Some? then old(database.anchor)
        else Some(Anchor(account, marketplace,
                         if old(database.anchor).Some? then old(database.anchor).value.establishedAt else at, at))
    {
      if !IsAccountKey(account) { return Some(AccountKeyInvalid); }
      if database.anchor.Some? && database.anchor.value.account != account { return Some(DifferentAccount); }
      database.anchor := Some(if database.anchor.Some?
                              then database.anchor.value.(marketplace := marketplace, confirmedAt := at)
                              else Anchor(account, marketplace, at, at));
      r := None;
    }

    /** Rows first, and only then the marker: a failing transaction leaves both, a marker that
        cannot be written leaves the rows deleted. */
    method DeleteLocalSnapshot(statementsOk: bool, markerWrites: bool, at: Library.Instant) returns (ok: bool)
      modifies this`marker, database`snapshot, database`sync, database`anchor
      ensures ok == (statementsOk && markerWrites)
      ensures database.State() == if statementsOk then SnapshotDeletedDb(old(database.State())) else old(database.State())
      ensures marker == if ok then DeletedByOwner(at) else old(marker)
    {
      if !statementsOk { return false; }
      database.snapshot, database.sync := None, None;
      var dependents := |database.reviews|;
      if dependents == 0 { database.anchor := None; }
      if markerWrites { marker := DeletedByOwner(at); }
      ok := markerWrites;
    }

    method PurgeAllLocalData(statementsOk: bool, markerWrites: bool, at: Library.Instant) returns (ok: bool)
      modifies this`marker, database
      ensures ok == (statementsOk && markerWrites)
      ensures database.State() == if statementsOk then EMPTY_DB else old(database.State())
      ensures marker == if ok then DeletedByOwner(at) else old(marker)
    {
      if !statementsOk { return false; }
      database.snapshot, database.sync, database.anchor, database.reviews := None, None, None, map[];
      if markerWrites { marker := DeletedByOwner(at); }
      ok := markerWrites;
    }

    /** False when a marker is on disk and cannot be removed. */
    method ClearLocalDataSuppression(clears: bool) returns (ok: bool)
      modifies this`marker
      ensures ok == (old(marker).NoMarker? || clears)
      ensures marker == if ok then NoMarker else old(marker)
    {
      if marker.NoMarker? { return true; }
      if clears { marker := NoMarker; }
      ok := clears;
    }
  }
}
