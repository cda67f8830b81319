/** The private_review table and what one uninterrupted stretch of a feedback
    operation does to it: src/store/feedback-store.js.

    A save suspends twice, at the unsealing of the current row and at the sealing
    of the new one, so it is three atomic steps; a delete never suspends. */
module Reviews {
  import opened Texts
  import opened Feedback

  const MAX_RECORDS_PER_ACCOUNT: nat := 20000
  const MAX_SEALED_RECORD_BYTES: nat := 64 * 1024
  const ENVELOPE_VERSION := "atr-local-envelope-r1"
  const REVIEW_PURPOSE := "private-review"

  datatype Key = Key(account: string, bookId: string)

  /** What a sealed payload authenticates. Sealing is symbolic: a blob is its envelope. */
  datatype Envelope = Envelope(
    version: string, purpose: string, account: string, bookId: string, generation: nat, record: Record)

  datatype Row = Row(generation: nat, revision: string, deleted: bool, payload: Option<Envelope>)

  type Table = map<Key, Row>

  function Lookup(t: Table, key: Key): Option<Row> {
    if key in t then Some(t[key]) else None
  }

  function Token(row: Option<Row>): string {
    if row.Some? then row.value.revision else ABSENT_REVISION
  }

  function GenerationOf(row: Option<Row>): nat {
    if row.Some? then row.value.generation else 0
  }

  predicate IsActive(row: Option<Row>) { row.Some? && !row.value.deleted }

  function ActiveKeys(t: Table, account: string): set<Key> {
    set key | key in t && key.account == account && !t[key].deleted
  }

  predicate IsAlphanumeric(c: char) { 'a' <= c <= 'z' || 'A' <= c <= 'Z' || '0' <= c <= '9' }

  predicate IsBookId(s: string) {
    && 1 <= |s| <= 64
    && IsAlphanumeric(s[0])
    && forall i :: 1 <= i < |s| ==> IsAlphanumeric(s[i]) || s[i] in "._:-"
  }

  /** `#open`: the authenticated inner binding decides, never the outer columns. */
  function Open(row: Option<Row>, key: Key, unsealed: bool): Result<Option<Record>, FeedbackError> {
    if row.None? || row.value.deleted || row.value.payload.None? then Ok(None)
    else if !unsealed then Err(SealerFailure)
    else
      var e := row.value.payload.value;
      if e.version != ENVELOPE_VERSION || e.purpose != REVIEW_PURPOSE
         || e.bookId != key.bookId || e.generation != row.value.generation then Err(InvalidFieldType)
      else if e.account != key.account then Err(AccountMismatch)
      else Ok(Some(e.record))
  }

  function BuildRecord(key: Key, payload: Payload, existing: Option<Record>, now: Instant,
                       revision: string, generation: nat): Record {
    Record(key.bookId, payload, if existing.Some? then existing.value.createdAt else now, now, revision, generation)
  }

  function Seal(key: Key, generation: nat, record: Record): Envelope {
    Envelope(ENVELOPE_VERSION, REVIEW_PURPOSE, key.account, key.bookId, generation, record)
  }

  /** A save that has suspended, with everything its continuation still reads. */
  datatype Pending =
    | Opening(key: Key, input: Payload, current: Option<Row>)
    | Sealing(key: Key, input: Payload, current: Option<Row>, now: Instant, hex: string,
              revision: string, generation: nat, record: Record)

  datatype Saved = Saved(record: Record, revision: string, generation: nat, noChange: bool)

  /** `save` up to its first await. */
  function BeginSave(t: Table, key: Key, input: Result<Payload, FeedbackError>, expected: string)
    : Result<Pending, FeedbackError>
  {
    if !IsBookId(key.bookId) then Err(InvalidBookId)
    else if input.Err? then Err(input.error)
    else
      var current := Lookup(t, key);
      if expected != Token(current) then Err(RevisionConflict)
      else Ok(Opening(key, input.value, current))
  }

  datatype Opened = Failed(error: FeedbackError) | NoChange(saved: Saved) | Proceed(next: Pending)

  /** `save` between its two awaits. The record limit is read here, from the live table. */
  function FinishOpen(t: Table, p: Pending, unsealed: bool, now: Option<Instant>, hex: string): Opened
    requires p.Opening?
  {
    var content := Open(p.current, p.key, unsealed);
    if content.Err? then Failed(content.error)
    else if content.value.Some? && content.value.value.payload == p.input then
      NoChange(Saved(content.value.value, Token(p.current), GenerationOf(p.current), true))
    else if content.value.None? && |ActiveKeys(t, p.key.account)| >= MAX_RECORDS_PER_ACCOUNT then
      Failed(AggregateLimitExceeded)
    else if now.None? then Failed(InvalidTimestamp)
    else
      var generation := GenerationOf(p.current) + 1;
      var revision := IssueRevision(generation, hex);
      var record := BuildRecord(p.key, p.input, content.value, now.value, revision, generation);
      Proceed(Sealing(p.key, p.input, p.current, now.value, hex, revision, generation, record))
  }

  /** The failure, if any, of `save` after its last await. */
  function CommitError(t: Table, p: Pending, blobBytes: Option<nat>): Option<FeedbackError>
    requires p.Sealing?
  {
    if blobBytes.None? then Some(SealerFailure)
    else if blobBytes.value == 0 || blobBytes.value > MAX_SEALED_RECORD_BYTES then Some(AggregateLimitExceeded)
    else if Token(Lookup(t, p.key)) != Token(p.current) then Some(RevisionConflict)
    else None
  }

  function CommitTable(t: Table, p: Pending, blobBytes: Option<nat>): Table
    requires p.Sealing?
  {
    if CommitError(t, p, blobBytes).Some? then t
    else t[p.key := Row(p.generation, p.revision, false, Some(Seal(p.key, p.generation, p.record)))]
  }

  function DeleteError(t: Table, key: Key, expected: string): Option<FeedbackError> {
    if !IsBookId(key.bookId) then Some(InvalidBookId)
    else if key !in t then Some(RecordNotFound)
    else if expected != t[key].revision then Some(RevisionConflict)
    else None
  }

  function DeleteTable(t: Table, key: Key, expected: string, hex: string): Table {
    if DeleteError(t, key, expected).Some? then t
    else
      var generation := t[key].generation + 1;
      t[key := Row(generation, IssueRevision(generation, hex), true, None)]
  }

  function PurgeTable(t: Table, account: string): Table {
    map key | key in t && key.account != account :: t[key]
  }

  // ---- What every row written here satisfies ------------------------------

  /** A row as this store writes it: its token names its generation, and exactly an
      active row holds a payload, bound to its own key, generation and token. */
  predicate RowOk(key: Key, row: Row) {
    && row.generation > 0
    && TokenGeneration(row.revision) == row.generation
    && row.deleted == row.payload.None?
    && (row.payload.Some? ==>
          && row.payload.value == Seal(key, row.generation, row.payload.value.record)
          && row.payload.value.record.generation == row.generation
          && row.payload.value.record.revision == row.revision
          && row.payload.value.record.bookId == key.bookId)
  }

  ghost predicate TableOk(t: Table) {
    forall key :: key in t ==> RowOk(key, t[key])
  }

  ghost predicate RowOptionOk(key: Key, row: Option<Row>) {
    row.Some? ==> RowOk(key, row.value)
  }

  /** Opening a stored row never fails by itself, and yields a record exactly when the
      row is active. */
  lemma OpenStoredRow(key: Key, row: Option<Row>)
    requires RowOptionOk(key, row)
    ensures Open(row, key, true).Ok?
    ensures Open(row, key, true).value.Some? <==> IsActive(row)
    ensures IsActive(row) ==> Open(row, key, true).value == Some(row.value.payload.value.record)
  {
  }

  /** A stored payload moved under any other key, or beside any other generation, does
      not open. */
  lemma MovedPayloadIsRefused(key: Key, row: Row, other: Key, moved: Row)
    requires RowOk(key, row) && !row.deleted
    requires !moved.deleted && moved.payload == row.payload
    ensures Open(Some(moved), other, true).Ok? <==> other == key && moved.generation == row.generation
  {
  }
}
