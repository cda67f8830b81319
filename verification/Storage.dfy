/** The rows of the local container and what each operation of
    src/store/encrypted-snapshot-store.js does to them. */
module Storage {
  import opened Texts
  import opened Library
  import Reviews

  const MAX_ITEM_COUNT := 20000

  datatype StoreError =
    | DifferentAccount | DifferentMarketplace | AccountKeyInvalid | MarketplaceNotAllowed
    | ItemCountInvalid | SealedSnapshotInvalid | StatementFailed
    | MarkerNotLifted | ProcessEnded

  /** Sealing is symbolic; NotSealed is a blob without the container's magic or size. */
  datatype Sealed = Sealed(content: Snapshot) | NotSealed

  datatype SnapshotRow = SnapshotRow(
    account: string, marketplace: string, itemCount: nat, observedAt: Instant,
    sealed: Sealed, generation: nat, basis: Option<string>)

  datatype SyncRow = SyncRow(
    lastAttemptAt: Option<Instant>, lastSuccessAt: Option<Instant>, lastErrorCode: Option<string>,
    generation: nat, candidateObservedAt: Option<Instant>)

  datatype Anchor = Anchor(account: string, marketplace: string, establishedAt: Instant, confirmedAt: Instant)

  datatype Db = Db(
    snapshot: Option<SnapshotRow>, sync: Option<SyncRow>, anchor: Option<Anchor>, reviews: Reviews.Table)

  const EMPTY_DB := Db(None, None, None, map[])

  predicate IsAccountKey(s: string) {
    |s| == 64 && forall i :: 0 <= i < |s| ==> 'a' <= s[i] <= 'f' || '0' <= s[i] <= '9'
  }

  // ---- status() -----------------------------------------------------------

  function StoredAccount(db: Db): Option<string> {
    if db.snapshot.Some? then Some(db.snapshot.value.account)
    else if db.anchor.Some? then Some(db.anchor.value.account)
    else None
  }

  function StoredMarketplace(db: Db): Option<string> {
    if db.snapshot.Some? then Some(db.snapshot.value.marketplace)
    else if db.anchor.Some? then Some(db.anchor.value.marketplace)
    else None
  }

  function Generation(db: Db): nat {
    if db.snapshot.Some? then db.snapshot.value.generation else 0
  }

  function LastSuccess(db: Db): Option<Instant> {
    if db.sync.Some? then db.sync.value.lastSuccessAt else None
  }

  // ---- Writes -------------------------------------------------------------

  datatype SaveRequest = SaveRequest(
    account: string, marketplace: string, itemCount: int, observedAt: Instant,
    sealed: Sealed, basis: Option<string>, committedAt: Instant)

  function SaveError(db: Db, rq: SaveRequest): Option<StoreError> {
    if StoredAccount(db).Some? && StoredAccount(db).value != rq.account then Some(DifferentAccount)
    else if StoredMarketplace(db).Some? && StoredMarketplace(db).value != rq.marketplace then Some(DifferentMarketplace)
    else if !IsAccountKey(rq.account) then Some(AccountKeyInvalid)
    else if rq.marketplace != "us" then Some(MarketplaceNotAllowed)
    else if rq.itemCount < 0 || rq.itemCount > MAX_ITEM_COUNT then Some(ItemCountInvalid)
    else if rq.sealed.NotSealed? then Some(SealedSnapshotInvalid)
    else None
  }

  function AnchorRow(prior: Option<Anchor>, account: string, marketplace: string, at: Instant): Anchor {
    if prior.Some? then prior.value.(marketplace := marketplace, confirmedAt := at)
    else Anchor(account, marketplace, at, at)
  }

  /** Snapshot, sync state and ownership anchor, in one transaction. */
  function SavedDb(db: Db, rq: SaveRequest): Db
    requires SaveError(db, rq).None?
  {
    var generation := Generation(db) + 1;
    Db(Some(SnapshotRow(rq.account, rq.marketplace, rq.itemCount, rq.observedAt, rq.sealed, generation, rq.basis)),
       Some(SyncRow(Some(rq.committedAt), Some(rq.committedAt), None, generation, Some(rq.observedAt))),
       Some(AnchorRow(db.anchor, rq.account, rq.marketplace, rq.committedAt)),
       db.reviews)
  }

  function AttemptedDb(db: Db, at: Instant): Db {
    db.(sync := Some(if db.sync.Some? then db.sync.value.(lastAttemptAt := Some(at))
                     else SyncRow(Some(at), None, None, 0, None)))
  }

  function FailedDb(db: Db, code: string, at: Instant): Db {
    db.(sync := Some(if db.sync.Some? then db.sync.value.(lastAttemptAt := Some(at), lastErrorCode := Some(code))
                     else SyncRow(Some(at), None, Some(code), 0, None)))
  }

  function AnchorError(db: Db, account: string): Option<StoreError> {
    if !IsAccountKey(account) then Some(AccountKeyInvalid)
    else if db.anchor.Some? && db.anchor.value.account != account then Some(DifferentAccount)
    else None
  }

  function AnchoredDb(db: Db, account: string, marketplace: string, at: Instant): Db {
    if AnchorError(db, account).Some? then db
    else db.(anchor := Some(AnchorRow(db.anchor, account, marketplace, at)))
  }

  /** The anchor goes with the last review that depends on it. */
  function SnapshotDeletedDb(db: Db): Db {
    db.(snapshot := None, sync := None, anchor := if |db.reviews| == 0 then None else db.anchor)
  }

  /** The failure reported by `accountAnchorViolation` of src/store/schema.js. */
  datatype Violation = ReviewWithoutAccountAnchor | ReviewAccountNotAnchored

  function AnchorViolation(db: Db): Option<Violation> {
    if |db.reviews| == 0 then None
    else if db.anchor.None? then Some(ReviewWithoutAccountAnchor)
    else if exists key :: key in db.reviews && key.account != db.anchor.value.account then Some(ReviewAccountNotAnchored)
    else None
  }
}
