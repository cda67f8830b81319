/** Whose data this is: every review belongs to the one anchored account, and a stored
    snapshot has an anchor for the same account. */
module Ownership {
  import opened Texts
  import opened Library
  import opened Feedback
  import opened Reviews
  import opened Storage

  ghost predicate ReviewsAnchored(db: Db) {
    forall key :: key in db.reviews ==> db.anchor.Some? && key.account == db.anchor.value.account
  }

  ghost predicate Owned(db: Db) {
    && ReviewsAnchored(db)
    && (db.snapshot.Some? ==> db.anchor.Some? && db.anchor.value.account == db.snapshot.value.account)
  }

  /** The explicit check the store makes at every open decides exactly the review half. */
  lemma ViolationIsUnanchoredReview(db: Db)
    ensures AnchorViolation(db).None? <==> ReviewsAnchored(db)
  {
    if |db.reviews| > 0 {
      assert exists key :: key in db.reviews by { assert |db.reviews.Keys| > 0; }
    } else {
      assert db.reviews == map[];
    }
  }

  /** Every write to the container, one at a time. A review write is bound to the account
      that owns the stored data. */
  datatype Step =
    | Save(rq: SaveRequest)
    | RecordAnchor(account: string, marketplace: string, at: Instant)
    | Attempt(at: Instant)
    | Failure(code: string, at: Instant)
    | DeleteSnapshot
    | PurgeAll
    | SaveReview(bookId: string, input: Result<Payload, FeedbackError>, expected: string,
                 unsealed: bool, now: Option<Feedback.Instant>, hex: string, blobBytes: Option<nat>)
    | DeleteReview(bookId: string, expected: string, hex: string)
    | PurgeReviews

  /** A save that nothing interrupts. */
  function SavedReviews(t: Table, key: Key, input: Result<Payload, FeedbackError>, expected: string,
                        unsealed: bool, now: Option<Feedback.Instant>, hex: string, blobBytes: Option<nat>): Table
  {
    var began := BeginSave(t, key, input, expected);
    if began.Err? then t
    else
      var finished := FinishOpen(t, began.value, unsealed, now, hex);
      if finished.Proceed? then CommitTable(t, finished.next, blobBytes) else t
  }

  function Next(db: Db, step: Step): Db {
    match step
    case Save(rq) => if SaveError(db, rq).Some? then db else SavedDb(db, rq)
    case RecordAnchor(account, marketplace, at) => AnchoredDb(db, account, marketplace, at)
    case Attempt(at) => AttemptedDb(db, at)
    case Failure(code, at) => FailedDb(db, code, at)
    case DeleteSnapshot => SnapshotDeletedDb(db)
    case PurgeAll => EMPTY_DB
    case SaveReview(bookId, input, expected, unsealed, now, hex, blobBytes) =>
      if StoredAccount(db).None? then db
      else
        var key := Key(StoredAccount(db).value, bookId);
        db.(reviews := SavedReviews(db.reviews, key, input, expected, unsealed, now, hex, blobBytes))
    case DeleteReview(bookId, expected, hex) =>
      if StoredAccount(db).None? then db
      else db.(reviews := DeleteTable(db.reviews, Key(StoredAccount(db).value, bookId), expected, hex))
    case PurgeReviews =>
      if StoredAccount(db).None? then db else db.(reviews := PurgeTable(db.reviews, StoredAccount(db).value))
  }

  function After(db: Db, steps: seq<Step>): Db {
    if steps == [] then db else Next(After(db, steps[..|steps| - 1]), steps[|steps| - 1])
  }

  lemma NextKeepsOwned(db: Db, step: Step)
    requires Owned(db)
    ensures Owned(Next(db, step))
  {
    var db' := Next(db, step);
    if step.DeleteSnapshot? && |db.reviews| == 0 { assert db.reviews == map[]; }
  }

  /** Through every run, starting from a new container, the anchor names the owner. */
  lemma {:induction false} RunsKeepOwned(db: Db, steps: seq<Step>)
    requires Owned(db)
    ensures Owned(After(db, steps)) && AnchorViolation(After(db, steps)).None?
  {
    if steps == [] {
    } else {
      RunsKeepOwned(db, steps[..|steps| - 1]);
      NextKeepsOwned(After(db, steps[..|steps| - 1]), steps[|steps| - 1]);
    }
    ViolationIsUnanchoredReview(After(db, steps));
  }

  /** Deleting the import never strands a review: they stay, under the same anchor. */
  lemma DeletingTheImportStrandsNothing(db: Db)
    requires Owned(db)
    ensures Owned(SnapshotDeletedDb(db)) && SnapshotDeletedDb(db).reviews == db.reviews
    ensures SnapshotDeletedDb(db).snapshot.None?
    ensures db.reviews != map[] ==>
      SnapshotDeletedDb(db).anchor == db.anchor && StoredAccount(SnapshotDeletedDb(db)) == StoredAccount(db)
  {
    NextKeepsOwned(db, DeleteSnapshot);
    if db.reviews != map[] {
      var key :| key in db.reviews;
      assert key in db.reviews.Keys;
    }
  }

  // ---- A review save that is in flight ------------------------------------

  /** Committing a suspended save keeps ownership exactly when it is refused or the
      anchor, at that moment, names its account. */
  lemma LateCommitKeepsOwnedExactly(db: Db, p: Pending, blobBytes: Option<nat>)
    requires Owned(db) && p.Sealing?
    ensures Owned(db.(reviews := CommitTable(db.reviews, p, blobBytes))) <==>
      CommitError(db.reviews, p, blobBytes).Some?
      || (db.anchor.Some? && db.anchor.value.account == p.key.account)
  {
    var db' := db.(reviews := CommitTable(db.reviews, p, blobBytes));
    if CommitError(db.reviews, p, blobBytes).None? {
      assert p.key in db'.reviews;
    }
  }

  /** A first save that suspended before a purge, or before the deletion of a snapshot
      no review depends on, finds its absent token again and commits under no anchor. */
  lemma FirstSaveOutlivesErasure(db: Db, bookId: string, input: Payload, now: Feedback.Instant, hex: string, purge: bool)
    requires Owned(db) && StoredAccount(db).Some? && IsBookId(bookId) && db.reviews == map[]
    ensures
      var key := Key(StoredAccount(db).value, bookId);
      var began := BeginSave(db.reviews, key, Ok(input), ABSENT_REVISION);
      began.Ok? && began.value.Opening? && var finished := FinishOpen(db.reviews, began.value, true, Some(now), hex);
      finished.Proceed?
      && var erased := Next(db, if purge then PurgeAll else DeleteSnapshot);
         CommitError(erased.reviews, finished.next, Some(1)).None?
         && AnchorViolation(erased.(reviews := CommitTable(erased.reviews, finished.next, Some(1))))
            == Some(ReviewWithoutAccountAnchor)
  {
    var key := Key(StoredAccount(db).value, bookId);
    var p := FinishOpen(db.reviews, Opening(key, input, None), true, Some(now), hex).next;
    var erased := Next(db, if purge then PurgeAll else DeleteSnapshot);
    assert ActiveKeys(db.reviews, key.account) == {};
    assert erased.reviews == map[] && erased.anchor.None?;
    assert CommitTable(erased.reviews, p, Some(1)).Keys == {key};
    assert |CommitTable(erased.reviews, p, Some(1))| == 1;
  }
}
