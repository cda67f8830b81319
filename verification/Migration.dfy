/** Bringing a container to the current storage revision: src/store/migration.js over
    the shapes of src/store/schema.js, and the constructor of
    src/store/encrypted-snapshot-store.js that runs it. Table and column names are symbols. */
module Migration {
  import opened Texts
  import Feedback
  import Storage

  datatype Name =
    | EncryptedSnapshot | SyncState | PrivateReview | SchemaMigration | LocalAccount
    | OtherTable(name: string)

  datatype Column =
    | AccountKey | ItemCount | Marketplace | ObservedAt | SealedPayload | Singleton
    | SnapshotGeneration | SourceObservedAt | CompletenessBasis
    | LastAttemptAt | LastErrorCode | LastSuccessAt | LastCandidateObservedAt
    | BookId | Deleted | Generation | Revision
    | AppliedAt | Checksum | MigrationId | EstablishedAt | LastConfirmedAt
    | OtherColumn(name: string)

  datatype Cell = Null | Integer(n: int) | Text(text: string) | Blob(bytes: string)

  type Row = map<Column, Cell>

  datatype Table = Table(columns: set<Column>, rows: seq<Row>)

  datatype Db = Db(version: int, tables: map<Name, Table>)

  type Fingerprint = map<Name, set<Column>>

  const STORAGE := 3
  const LEGACY := 1
  const INTERIM := 2

  const SNAPSHOT_COLUMNS := {AccountKey, ItemCount, Marketplace, ObservedAt, SealedPayload, Singleton}
  const SYNC_COLUMNS := {LastAttemptAt, LastErrorCode, LastSuccessAt, Singleton}
  const SNAPSHOT_COLUMNS_2 := SNAPSHOT_COLUMNS + {SnapshotGeneration, SourceObservedAt, CompletenessBasis}
  const SYNC_COLUMNS_2 := SYNC_COLUMNS + {SnapshotGeneration, LastCandidateObservedAt}
  const REVIEW_COLUMNS := {AccountKey, BookId, Deleted, Generation, Revision, SealedPayload}
  const RECEIPT_COLUMNS := {AppliedAt, Checksum, MigrationId}
  const ANCHOR_COLUMNS := {AccountKey, EstablishedAt, LastConfirmedAt, Marketplace, Singleton}

  const LEGACY_FINGERPRINT: Fingerprint :=
    map[EncryptedSnapshot := SNAPSHOT_COLUMNS, SyncState := SYNC_COLUMNS]
  const INTERIM_FINGERPRINT: Fingerprint :=
    map[EncryptedSnapshot := SNAPSHOT_COLUMNS_2, SyncState := SYNC_COLUMNS_2,
        PrivateReview := REVIEW_COLUMNS, SchemaMigration := RECEIPT_COLUMNS]
  const CURRENT_FINGERPRINT: Fingerprint :=
    map[EncryptedSnapshot := SNAPSHOT_COLUMNS_2, SyncState := SYNC_COLUMNS_2,
        PrivateReview := REVIEW_COLUMNS, SchemaMigration := RECEIPT_COLUMNS, LocalAccount := ANCHOR_COLUMNS]

  function Shape(db: Db): Fingerprint { map t | t in db.tables :: db.tables[t].columns }

  function Get(row: Row, c: Column): Cell { if c in row then row[c] else Null }

  function Rows(db: Db, t: Name): seq<Row> { if t in db.tables then db.tables[t].rows else [] }

  // ---- Operations of the chain ---------------------------------------------

  datatype Operation =
    | AddColumn(table: Name, column: Column, preset: Cell)
    | CreateTable(table: Name, columns: set<Column>)
    | Backfill
    | Receipt(id: string, checksum: string)
    | Mark

  datatype Migration = Migration(id: string, checksum: string, from: int, to: int, statements: seq<Operation>)

  const CREATE_REVISION_3 := [
    CreateTable(EncryptedSnapshot, SNAPSHOT_COLUMNS_2), CreateTable(SyncState, SYNC_COLUMNS_2),
    CreateTable(PrivateReview, REVIEW_COLUMNS), CreateTable(SchemaMigration, RECEIPT_COLUMNS),
    CreateTable(LocalAccount, ANCHOR_COLUMNS)]

  const MIGRATION_1_TO_2 := Migration(
    "atr-storage-0001-private-feedback", "r1-to-r2-columns+private_review+schema_migration", LEGACY, INTERIM,
    [AddColumn(EncryptedSnapshot, SnapshotGeneration, Integer(1)), AddColumn(EncryptedSnapshot, SourceObservedAt, Null),
     AddColumn(EncryptedSnapshot, CompletenessBasis, Null), AddColumn(SyncState, SnapshotGeneration, Integer(0)),
     AddColumn(SyncState, LastCandidateObservedAt, Null),
     CreateTable(PrivateReview, REVIEW_COLUMNS), CreateTable(SchemaMigration, RECEIPT_COLUMNS)])

  const MIGRATION_2_TO_3 := Migration(
    "atr-storage-0002-local-account-anchor", "r2-to-r3-local_account+backfill-from-snapshot", INTERIM, STORAGE,
    [CreateTable(LocalAccount, ANCHOR_COLUMNS), Backfill])

  const MIGRATION_CHAIN := [MIGRATION_1_TO_2, MIGRATION_2_TO_3]

  function PendingMigrations(from: int): seq<Migration> {
    if from <= LEGACY then MIGRATION_CHAIN
    else if from <= INTERIM then [MIGRATION_2_TO_3]
    else []
  }

  function StepOperations(step: Migration): seq<Operation> { step.statements + [Receipt(step.id, step.checksum)] }

  function ChainOperations(steps: seq<Migration>): seq<Operation> {
    if steps == [] then [Mark] else StepOperations(steps[0]) + ChainOperations(steps[1..])
  }

  // ---- What one statement does ----------------------------------------------

  function Extended(rows: seq<Row>, c: Column, preset: Cell): seq<Row> {
    seq(|rows|, i requires 0 <= i < |rows| => rows[i][c := preset])
  }

  predicate IsSingleton(row: Row) { Get(row, Singleton) == Integer(1) }

  function Singletons(rows: seq<Row>): seq<Row> {
    if rows == [] then []
    else (if IsSingleton(rows[0]) then [rows[0]] else []) + Singletons(rows[1..])
  }

  function First(rows: seq<Row>): Option<Row> {
    if Singletons(rows) == [] then None else Some(Singletons(rows)[0])
  }

  /** What a strict text column makes of a value, if it takes it. */
  function AsText(c: Cell): Option<string> {
    match c
    case Text(s) => Some(s)
    case Integer(n) => Some(if n < 0 then "-" + Feedback.Decimal(-n) else Feedback.Decimal(n))
    case Null => None
    case Blob(_) => None
  }

  predicate Anchorable(row: Row) {
    AsText(Get(row, AccountKey)).Some? && AsText(Get(row, Marketplace)).Some? && AsText(Get(row, ObservedAt)).Some?
  }

  function AnchorOf(row: Row): Row
    requires Anchorable(row)
  {
    var observed := Text(AsText(Get(row, ObservedAt)).value);
    map[Singleton := Integer(1), AccountKey := Text(AsText(Get(row, AccountKey)).value),
        Marketplace := Text(AsText(Get(row, Marketplace)).value),
        EstablishedAt := observed, LastConfirmedAt := observed]
  }

  /** NOT NULL is checked on every selected row; the singleton key keeps only the first. */
  function Backfilled(anchors: seq<Row>, snapshots: seq<Row>): Option<seq<Row>> {
    var selected := Singletons(snapshots);
    if exists i :: 0 <= i < |selected| && !Anchorable(selected[i]) then None
    else if selected == [] || First(anchors).Some? then Some(anchors)
    else Some(anchors + [AnchorOf(selected[0])])
  }

  function Without(rows: seq<Row>, id: string): seq<Row> {
    if rows == [] then []
    else (if Get(rows[0], MigrationId) == Text(id) then [] else [rows[0]]) + Without(rows[1..], id)
  }

  function Stamped(rows: seq<Row>, id: string, checksum: string, now: string): seq<Row> {
    Without(rows, id) + [map[MigrationId := Text(id), AppliedAt := Text(now), Checksum := Text(checksum)]]
  }

  /** None is a statement the database refuses. */
  function Apply(op: Operation, db: Db, now: string): Option<Db> {
    match op
    case AddColumn(t, c, preset) =>
      if t !in db.tables || c in db.tables[t].columns then None
      else Some(db.(tables := db.tables[t := Table(db.tables[t].columns + {c}, Extended(db.tables[t].rows, c, preset))]))
    case CreateTable(t, columns) =>
      if t in db.tables then Some(db) else Some(db.(tables := db.tables[t := Table(columns, [])]))
    case Backfill =>
      if LocalAccount !in db.tables || EncryptedSnapshot !in db.tables then None
      else
        var rows := Backfilled(db.tables[LocalAccount].rows, db.tables[EncryptedSnapshot].rows);
        if rows.None? then None
        else Some(db.(tables := db.tables[LocalAccount := db.tables[LocalAccount].(rows := rows.value)]))
    case Receipt(id, checksum) =>
      if SchemaMigration !in db.tables then None
      else
        var table := db.tables[SchemaMigration];
        Some(db.(tables := db.tables[SchemaMigration := table.(rows := Stamped(table.rows, id, checksum, now))]))
    case Mark => Some(db.(version := STORAGE))
  }

  /** SQL comparison with a null is never true. */
  predicate Foreign(row: Row, anchor: Row) {
    && Get(row, AccountKey) != Null
    && Get(anchor, AccountKey) != Null
    && Get(row, AccountKey) != Get(anchor, AccountKey)
  }

  function ViolationOf(reviews: seq<Row>, anchor: Option<Row>): Option<Storage.Violation> {
    if reviews == [] then None
    else if anchor.None? then Some(Storage.ReviewWithoutAccountAnchor)
    else if exists i :: 0 <= i < |reviews| && Foreign(reviews[i], anchor.value) then Some(Storage.ReviewAccountNotAnchored)
    else None
  }

  function AnchorViolation(db: Db): Option<Storage.Violation> {
    ViolationOf(Rows(db, PrivateReview), First(Rows(db, LocalAccount)))
  }

  // ---- Running the chain -----------------------------------------------------

  datatype Code =
    | SchemaNewer | SchemaUnknown | SchemaPartiallyCreated
    | MigrationInterrupted | MigrationFailed | VerificationFailed
    | SchemaUnexpected | Violated(violation: Storage.Violation)

  /** Where a run is made to stop, and the statement at which the disk fails, if any.
      The commit has the index after the last statement. */
  datatype Faults = Faults(stopAfter: Option<int>, diskAt: Option<int>)

  const NO_FAULTS := Faults(None, None)

  datatype Outcome = Initialized | AlreadyCurrent | Migrated

  datatype Report = Report(outcome: Outcome, from: int, migrationIds: seq<string>, backedUp: bool)

  predicate StopsAt(faults: Faults, applied: nat) { faults.stopAfter.Some? && applied >= faults.stopAfter.value }

  function Walk(rest: seq<Operation>, applied: nat, db: Db, faults: Faults, now: string): Result<Db, Code> {
    if rest == [] then Ok(db)
    else if StopsAt(faults, applied) then Err(MigrationInterrupted)
    else if faults.diskAt == Some(applied) then Err(MigrationFailed)
    else
      var next := Apply(rest[0], db, now);
      if next.None? then Err(MigrationFailed) else Walk(rest[1..], applied + 1, next.value, faults, now)
  }

  function Ids(steps: seq<Migration>): seq<string> { seq(|steps|, i requires 0 <= i < |steps| => steps[i].id) }

  function Structural(db: Db, from: int, faults: Faults, now: string): Result<Db, Code> {
    var operations := ChainOperations(PendingMigrations(from));
    var walked := Walk(operations, 0, db, faults, now);
    if walked.Err? then walked
    else if Shape(walked.value) != CURRENT_FINGERPRINT then Err(VerificationFailed)
    else if AnchorViolation(walked.value).Some? then Err(VerificationFailed)
    else if faults.diskAt == Some(|operations|) then Err(MigrationFailed)
    else walked
  }

  function Initialize(db: Db, faults: Faults, now: string): Result<Db, Code> {
    var operations := CREATE_REVISION_3 + [Mark];
    var walked := Walk(operations, 0, db, faults.(stopAfter := None), now);
    if walked.Ok? && faults.diskAt == Some(|operations|) then Err(MigrationFailed) else walked
  }

  datatype State = State(db: Db, backup: Option<Db>)

  function StructuralRun(s: State, from: int, faults: Faults, now: string, keep: bool): (State, Result<Report, Code>) {
    var r, backup := Structural(s.db, from, faults, now), if keep then Some(s.db) else s.backup;
    if r.Err? then (State(s.db, backup), Err(r.error))
    else (State(r.value, backup), Ok(Report(Migrated, from, Ids(PendingMigrations(from)), keep)))
  }

  function MigrateRun(s: State, faults: Faults, now: string, keep: bool): (State, Result<Report, Code>) {
    var version, shape := s.db.version, Shape(s.db);
    if version > STORAGE then (s, Err(SchemaNewer))
    else if version == 0 then
      if shape == map[] then
        var r := Initialize(s.db, faults, now);
        if r.Err? then (s, Err(r.error)) else (s.(db := r.value), Ok(Report(Initialized, 0, [], false)))
      else if shape == LEGACY_FINGERPRINT then StructuralRun(s, LEGACY, faults, now, keep)
      else if shape == INTERIM_FINGERPRINT then StructuralRun(s, INTERIM, faults, now, keep)
      else if shape == CURRENT_FINGERPRINT then
        (s.(db := s.db.(version := STORAGE)), Ok(Report(AlreadyCurrent, STORAGE, [], false)))
      else (s, Err(SchemaUnknown))
    else if version == LEGACY then
      if shape != LEGACY_FINGERPRINT then (s, Err(SchemaPartiallyCreated)) else StructuralRun(s, LEGACY, faults, now, keep)
    else if version == INTERIM then
      if shape != INTERIM_FINGERPRINT then (s, Err(SchemaPartiallyCreated)) else StructuralRun(s, INTERIM, faults, now, keep)
    else if version == STORAGE then
      if shape != CURRENT_FINGERPRINT then (s, Err(SchemaPartiallyCreated))
      else (s, Ok(Report(AlreadyCurrent, version, [], false)))
    else (s, Err(SchemaUnknown))
  }

  predicate IsRestorable(code: Code) {
    code in {MigrationInterrupted, MigrationFailed, VerificationFailed, SchemaUnexpected}
  }

  /** The file a closing handle leaves behind when opening it was refused. */
  function Restored(s: State, code: Code): State {
    if IsRestorable(code) && s.backup.Some? then s.(db := s.backup.value) else s
  }

  /** The constructor, once the migration has answered. */
  function Checked(after: State, r: Result<Report, Code>): (State, Result<Report, Code>) {
    if r.Err? then (Restored(after, r.error), r)
    else if Shape(after.db) != CURRENT_FINGERPRINT then (Restored(after, SchemaUnexpected), Err(SchemaUnexpected))
    else if AnchorViolation(after.db).Some? then
      (Restored(after, Violated(AnchorViolation(after.db).value)), Err(Violated(AnchorViolation(after.db).value)))
    else (after, r)
  }

  function OpenRun(s: State, faults: Faults, now: string): (State, Result<Report, Code>) {
    var (after, r) := MigrateRun(s, faults, now, true);
    Checked(after, r)
  }

  // ---- The container --------------------------------------------------------

  class Container {
    var db: Db
    var backup: Option<Db>
    var applied: nat

    function Value(): State
      reads this
    {
      State(db, backup)
    }

    /** One statement, unless the disk fails under it. */
    method Exec(op: Operation, faults: Faults, now: string) returns (r: Option<Code>)
      modifies this`db
      ensures r == (if faults.diskAt == Some(applied) || Apply(op, old(db), now).None? then Some(MigrationFailed) else None)
      ensures r.None? ==> Some(db) == Apply(op, old(db), now)
    {
      if faults.diskAt == Some(applied) { return Some(MigrationFailed); }
      var next := Apply(op, db, now);
      if next.None? { return Some(MigrationFailed); }
      db := next.value;
      return None;
    }

    method Tick(op: Operation, faults: Faults, now: string) returns (r: Option<Code>)
      modifies this`db, this`applied
      ensures r.Some? <==> Walk([op], old(applied), old(db), faults, now).Err?
      ensures r.Some? ==> Walk([op], old(applied), old(db), faults, now) == Err(r.value)
      ensures r.None? ==> Walk([op], old(applied), old(db), faults, now) == Ok(db) && applied == old(applied) + 1
    {
      if faults.stopAfter.Some? && applied >= faults.stopAfter.value { return Some(MigrationInterrupted); }
      r := Exec(op, faults, now);
      applied := applied + 1;
    }

    /** The statements of one migration and its receipt. */
    method ApplyStep(step: Migration, ghost later: seq<Operation>, faults: Faults, now: string) returns (r: Option<Code>)
      modifies this`db, this`applied
      ensures var all := StepOperations(step) + later;
        && (r.Some? ==> Walk(all, old(applied), old(db), faults, now) == Err(r.value))
        && (r.None? ==> Walk(all, old(applied), old(db), faults, now) == Walk(later, applied, db, faults, now))
      ensures r.None? ==> applied == old(applied) + |step.statements| + 1
    {
      ghost var receipt := [Receipt(step.id, step.checksum)] + later;
      assert StepOperations(step) + later == step.statements[0..] + receipt;
      for j := 0 to |step.statements|
        invariant Walk(StepOperations(step) + later, old(applied), old(db), faults, now)
          == Walk(step.statements[j..] + receipt, applied, db, faults, now)
        invariant applied == old(applied) + j
      {
        SplitStatement(step.statements, j, receipt);
        WalkFront(step.statements[j..] + receipt, applied, db, faults, now);
        r := Tick(step.statements[j], faults, now);
        if r.Some? { return; }
      }
      assert step.statements[|step.statements|..] + receipt == receipt && receipt[1..] == later;
      WalkFront(receipt, applied, db, faults, now);
      r := Tick(Receipt(step.id, step.checksum), faults, now);
    }

    method ApplyChain(steps: seq<Migration>, faults: Faults, now: string) returns (r: Option<Code>)
      modifies this`db, this`applied
      ensures r.Some? ==> Walk(ChainOperations(steps), 0, old(db), faults, now) == Err(r.value)
      ensures r.None? ==> Walk(ChainOperations(steps), 0, old(db), faults, now) == Ok(db)
      ensures r.None? ==> applied == |ChainOperations(steps)|
    {
      applied := 0;
      assert steps[0..] == steps;
      for i := 0 to |steps|
        invariant Walk(ChainOperations(steps), 0, old(db), faults, now)
          == Walk(ChainOperations(steps[i..]), applied, db, faults, now)
        invariant applied + |ChainOperations(steps[i..])| == |ChainOperations(steps)|
      {
        assert steps[i..][0] == steps[i] && steps[i..][1..] == steps[i + 1..];
        r := ApplyStep(steps[i], ChainOperations(steps[i + 1..]), faults, now);
        if r.Some? { return; }
      }
      assert steps[|steps|..] == [] && ChainOperations([]) == [Mark];
      WalkFront([Mark], applied, db, faults, now);
      r := Tick(Mark, faults, now);
    }

    /** Chain, marker and checks, all in one transaction. */
    method RunStructuralMigration(from: int, faults: Faults, now: string, keep: bool) returns (r: Result<Report, Code>)
      requires from in {LEGACY, INTERIM}
      modifies this
      ensures (Value(), r) == StructuralRun(old(Value()), from, faults, now, keep)
    {
      var steps := PendingMigrations(from);
      if keep { backup := Some(db); }
      var begun := db;
      var failed := ApplyChain(steps, faults, now);
      if failed.None? && (Shape(db) != CURRENT_FINGERPRINT || AnchorViolation(db).Some?) {
        failed := Some(VerificationFailed);
      }
      if failed.None? && faults.diskAt == Some(applied) { failed := Some(MigrationFailed); }
      if failed.Some? {
        db := begun;
        return Err(failed.value);
      }
      r := Ok(Report(Migrated, steps[0].from, Ids(steps), keep));
    }

    method InitializeContainer(faults: Faults, now: string) returns (r: Option<Code>)
      modifies this`db, this`applied
      ensures r == (if Initialize(old(db), faults, now).Ok? then None else Some(Initialize(old(db), faults, now).error))
      ensures db == (if r.None? then Initialize(old(db), faults, now).value else old(db))
    {
      var begun, all := db, CREATE_REVISION_3 + [Mark];
      ghost var quiet := faults.(stopAfter := None);
      applied := 0;
      assert all[0..] == all;
      while applied < |all|
        invariant 0 <= applied <= |all|
        invariant Walk(all, 0, begun, quiet, now) == Walk(all[applied..], applied, db, quiet, now)
      {
        assert all[applied..][0] == all[applied] && all[applied..][1..] == all[applied + 1..];
        r := Exec(all[applied], faults, now);
        if r.Some? {
          db := begun;
          return;
        }
        applied := applied + 1;
      }
      if faults.diskAt == Some(applied) {
        db := begun;
        return Some(MigrationFailed);
      }
      r := None;
    }

    method MigrateDatabase(faults: Faults, now: string, keep: bool) returns (r: Result<Report, Code>)
      modifies this
      ensures (Value(), r) == MigrateRun(old(Value()), faults, now, keep)
    {
      var version, shape := db.version, Shape(db);
      if version > STORAGE { return Err(SchemaNewer); }
      if version == 0 {
        if shape == map[] {
          var failed := InitializeContainer(faults, now);
          return if failed.Some? then Err(failed.value) else Ok(Report(Initialized, 0, [], false));
        }
        if shape == LEGACY_FINGERPRINT { r := RunStructuralMigration(LEGACY, faults, now, keep); return; }
        if shape == INTERIM_FINGERPRINT { r := RunStructuralMigration(INTERIM, faults, now, keep); return; }
        if shape == CURRENT_FINGERPRINT {
          db := db.(version := STORAGE);
          return Ok(Report(AlreadyCurrent, STORAGE, [], false));
        }
        return Err(SchemaUnknown);
      }
      if version == LEGACY {
        if shape != LEGACY_FINGERPRINT { return Err(SchemaPartiallyCreated); }
        r := RunStructuralMigration(LEGACY, faults, now, keep);
        return;
      }
      if version == INTERIM {
        if shape != INTERIM_FINGERPRINT { return Err(SchemaPartiallyCreated); }
        r := RunStructuralMigration(INTERIM, faults, now, keep);
        return;
      }
      if version == STORAGE {
        if shape != CURRENT_FINGERPRINT { return Err(SchemaPartiallyCreated); }
        return Ok(Report(AlreadyCurrent, version, [], false));
      }
      r := Err(SchemaUnknown);
    }

    /** The store's constructor over the file at hand. */
    method Open(faults: Faults, now: string) returns (r: Result<Report, Code>)
      modifies this
      ensures (Value(), r) == OpenRun(old(Value()), faults, now)
    {
      r := MigrateDatabase(faults, now, true);
      if r.Ok? {
        if Shape(db) != CURRENT_FINGERPRINT {
          r := Err(SchemaUnexpected);
        } else if AnchorViolation(db).Some? {
          r := Err(Violated(AnchorViolation(db).value));
        }
      }
      if r.Err? && IsRestorable(r.error) && backup.Some? { db := backup.value; }
    }
  }

  lemma SplitStatement(statements: seq<Operation>, j: nat, rest: seq<Operation>)
    requires j < |statements|
    ensures (statements[j..] + rest)[0] == statements[j]
    ensures (statements[j..] + rest)[1..] == statements[j + 1..] + rest
  {
  }

  lemma WalkFront(rest: seq<Operation>, applied: nat, db: Db, faults: Faults, now: string)
    requires rest != []
    ensures var first := Walk([rest[0]], applied, db, faults, now);
      Walk(rest, applied, db, faults, now) ==
        if first.Err? then first else Walk(rest[1..], applied + 1, first.value, faults, now)
  {
    var next := Apply(rest[0], db, now);
    if next.Some? { assert Walk([], applied + 1, next.value, faults, now) == Ok(next.value); }
  }
}
