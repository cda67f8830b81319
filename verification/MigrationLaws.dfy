/** The migration against its pure planner (src/store/production-migration.js), and what
    it keeps: src/store/migration.js, src/store/schema.js. */
module MigrationLaws {
  import opened Texts
  import opened Migration

  // ---- The planner -----------------------------------------------------------

  datatype Class =
    | Absent | Empty | Legacy | Interim | Current | CurrentUnmarked | Newer | Unknown

  datatype Action = ActInitialize | ActMigrate | ActAdoptMarker | ActNothing | ActRefuse

  datatype Plan = Plan(class_: Class, action: Action, from: Option<int>, envelope: bool, reason: Option<Code>)

  function ClassifyContainer(version: int, shape: Fingerprint): Class {
    if version < 0 then Unknown
    else if version > STORAGE then Newer
    else if version == STORAGE then if shape == CURRENT_FINGERPRINT then Current else Unknown
    else if version == LEGACY then if shape == LEGACY_FINGERPRINT then Legacy else Unknown
    else if version == INTERIM then if shape == INTERIM_FINGERPRINT then Interim else Unknown
    else if shape == map[] then Empty
    else if shape == LEGACY_FINGERPRINT then Legacy
    else if shape == INTERIM_FINGERPRINT then Interim
    else if shape == CURRENT_FINGERPRINT then CurrentUnmarked
    else Unknown
  }

  function PlanMigration(exists_: bool, version: int, shape: Fingerprint): Plan {
    var class_ := if exists_ then ClassifyContainer(version, shape) else Absent;
    match class_
    case Absent => Plan(class_, ActInitialize, Some(0), false, None)
    case Empty => Plan(class_, ActInitialize, Some(0), false, None)
    case Legacy => Plan(class_, ActMigrate, Some(LEGACY), true, None)
    case Interim => Plan(class_, ActMigrate, Some(INTERIM), true, None)
    case CurrentUnmarked => Plan(class_, ActAdoptMarker, Some(STORAGE), false, None)
    case Current => Plan(class_, ActNothing, Some(STORAGE), false, None)
    case Newer => Plan(class_, ActRefuse, None, false, Some(SchemaNewer))
    case Unknown => Plan(class_, ActRefuse, None, false, Some(SchemaUnknown))
  }

  function PlanFor(db: Db): Plan { PlanMigration(true, db.version, Shape(db)) }

  // ---- Conditions on rows ------------------------------------------------------

  /** The stored snapshot rows carry what the anchor's columns demand. */
  predicate SnapshotsAnchorable(db: Db) {
    var selected := Singletons(Rows(db, EncryptedSnapshot));
    forall i :: 0 <= i < |selected| ==> Anchorable(selected[i])
  }

  /** Every review belongs to the account of the stored snapshot. */
  predicate ReviewsBelong(db: Db)
    requires SnapshotsAnchorable(db)
  {
    var reviews, first := Rows(db, PrivateReview), First(Rows(db, EncryptedSnapshot));
    reviews != [] ==>
      && first.Some?
      && forall i :: 0 <= i < |reviews| ==>
           Get(reviews[i], AccountKey) in {Null, Text(AsText(Get(first.value, AccountKey)).value)}
  }

  // ---- Stopping anywhere ---------------------------------------------------------

  lemma {:induction false} WalkAppend(a: seq<Operation>, b: seq<Operation>, applied: nat, db: Db, f: Faults, now: string)
    ensures Walk(a + b, applied, db, f, now) ==
      var w := Walk(a, applied, db, f, now);
      if w.Err? then w else Walk(b, applied + |a|, w.value, f, now)
  {
    if a == [] {
      assert a + b == b;
    } else {
      assert (a + b)[1..] == a[1..] + b;
      var next := Apply(a[0], db, now);
      if next.Some? { WalkAppend(a[1..], b, applied + 1, next.value, f, now); }
    }
  }

  /** The first operation index at which a run is stopped, if it is. */
  predicate Reached(f: Faults, applied: nat, n: nat) {
    || (f.stopAfter.Some? && n > 0 && f.stopAfter.value < applied + n)
    || (f.diskAt.Some? && applied <= f.diskAt.value < applied + n)
  }

  lemma {:induction false} WalkIsStoppedExactly(ops: seq<Operation>, applied: nat, db: Db, f: Faults, now: string)
    requires Walk(ops, applied, db, NO_FAULTS, now).Ok?
    ensures Walk(ops, applied, db, f, now).Err? <==> Reached(f, applied, |ops|)
    ensures !Reached(f, applied, |ops|) ==> Walk(ops, applied, db, f, now) == Walk(ops, applied, db, NO_FAULTS, now)
    ensures f.diskAt.None? && Reached(f, applied, |ops|) ==> Walk(ops, applied, db, f, now) == Err(MigrationInterrupted)
  {
    if ops == [] || StopsAt(f, applied) || f.diskAt == Some(applied) {
    } else {
      WalkIsStoppedExactly(ops[1..], applied + 1, Apply(ops[0], db, now).value, f, now);
    }
  }

  lemma {:induction false} FaultsOnlyRefuse(ops: seq<Operation>, applied: nat, db: Db, f: Faults, now: string)
    requires Walk(ops, applied, db, f, now).Ok?
    ensures Walk(ops, applied, db, NO_FAULTS, now) == Walk(ops, applied, db, f, now)
  {
    if ops == [] {
    } else {
      FaultsOnlyRefuse(ops[1..], applied + 1, Apply(ops[0], db, now).value, f, now);
    }
  }

  lemma OperationCount()
    ensures |ChainOperations(PendingMigrations(LEGACY))| == 12
    ensures |ChainOperations(PendingMigrations(INTERIM))| == 4
    ensures ChainOperations(PendingMigrations(LEGACY))
      == StepOperations(MIGRATION_1_TO_2) + ChainOperations(PendingMigrations(INTERIM))
    ensures ChainOperations(PendingMigrations(INTERIM)) == StepOperations(MIGRATION_2_TO_3) + [Mark]
  {
    assert MIGRATION_CHAIN[1..] == [MIGRATION_2_TO_3] && [MIGRATION_2_TO_3][1..] == [];
    assert ChainOperations([]) == [Mark];
    assert ChainOperations([MIGRATION_2_TO_3]) == StepOperations(MIGRATION_2_TO_3) + ChainOperations([]);
  }

  // ---- Where the chain leads -------------------------------------------------------

  function Widen(rows: seq<Row>): seq<Row> {
    Extended(Extended(Extended(rows, SnapshotGeneration, Integer(1)), SourceObservedAt, Null), CompletenessBasis, Null)
  }

  function WidenSync(rows: seq<Row>): seq<Row> {
    Extended(Extended(rows, SnapshotGeneration, Integer(0)), LastCandidateObservedAt, Null)
  }

  function InterimOf(db: Db, now: string): Db {
    db.(tables := map[
      EncryptedSnapshot := Table(SNAPSHOT_COLUMNS_2, Widen(Rows(db, EncryptedSnapshot))),
      SyncState := Table(SYNC_COLUMNS_2, WidenSync(Rows(db, SyncState))),
      PrivateReview := Table(REVIEW_COLUMNS, []),
      SchemaMigration := Table(RECEIPT_COLUMNS, Stamped([], MIGRATION_1_TO_2.id, MIGRATION_1_TO_2.checksum, now))])
  }

  function Anchors(db: Db): seq<Row>
    requires SnapshotsAnchorable(db)
  {
    var first := First(Rows(db, EncryptedSnapshot));
    if first.None? then [] else [AnchorOf(first.value)]
  }

  function CurrentOf(db: Db, now: string): Db
    requires SnapshotsAnchorable(db)
  {
    Db(STORAGE, map[
      EncryptedSnapshot := Table(SNAPSHOT_COLUMNS_2, Rows(db, EncryptedSnapshot)),
      SyncState := Table(SYNC_COLUMNS_2, Rows(db, SyncState)),
      PrivateReview := Table(REVIEW_COLUMNS, Rows(db, PrivateReview)),
      SchemaMigration := Table(RECEIPT_COLUMNS,
        Stamped(Rows(db, SchemaMigration), MIGRATION_2_TO_3.id, MIGRATION_2_TO_3.checksum, now)),
      LocalAccount := Table(ANCHOR_COLUMNS, Anchors(db))])
  }

  lemma WalkAt(ops: seq<Operation>, k: nat, db: Db, next: Db, now: string)
    requires k < |ops| && Apply(ops[k], db, now) == Some(next)
    ensures Walk(ops[k..], k, db, NO_FAULTS, now) == Walk(ops[k + 1..], k + 1, next, NO_FAULTS, now)
  {
    assert ops[k..][0] == ops[k] && ops[k..][1..] == ops[k + 1..];
  }

  /** The tables of a database of known shape. */
  lemma TablesOf(db: Db, shape: Fingerprint)
    requires Shape(db) == shape
    ensures db.tables.Keys == shape.Keys
    ensures forall t :: t in shape ==> db.tables[t] == Table(shape[t], Rows(db, t))
  {
    assert Shape(db).Keys == db.tables.Keys;
    forall t | t in shape ensures db.tables[t] == Table(shape[t], Rows(db, t)) {
      assert Shape(db)[t] == db.tables[t].columns;
    }
  }

  function Widening(db: Db, n: nat): Db
    requires Shape(db) == LEGACY_FINGERPRINT && n <= 5
  {
    var rows, sync := Rows(db, EncryptedSnapshot), Rows(db, SyncState);
    var t1 := Table(SNAPSHOT_COLUMNS + {SnapshotGeneration}, Extended(rows, SnapshotGeneration, Integer(1)));
    var t2 := Table(t1.columns + {SourceObservedAt}, Extended(t1.rows, SourceObservedAt, Null));
    var t3 := Table(t2.columns + {CompletenessBasis}, Extended(t2.rows, CompletenessBasis, Null));
    var u1 := Table(SYNC_COLUMNS + {SnapshotGeneration}, Extended(sync, SnapshotGeneration, Integer(0)));
    var u2 := Table(u1.columns + {LastCandidateObservedAt}, Extended(u1.rows, LastCandidateObservedAt, Null));
    var snapshot := if n == 0 then Table(SNAPSHOT_COLUMNS, rows) else if n == 1 then t1 else if n == 2 then t2 else t3;
    var state := if n <= 3 then Table(SYNC_COLUMNS, sync) else if n == 4 then u1 else u2;
    db.(tables := map[EncryptedSnapshot := snapshot, SyncState := state])
  }

  lemma WideningStep(db: Db, n: nat, now: string)
    requires Shape(db) == LEGACY_FINGERPRINT && n < 5
    ensures Apply(MIGRATION_1_TO_2.statements[n], Widening(db, n), now) == Some(Widening(db, n + 1))
  {
    var before, after, op := Widening(db, n), Widening(db, n + 1), MIGRATION_1_TO_2.statements[n];
    assert op.AddColumn? && op.table in before.tables && op.column !in before.tables[op.table].columns;
    assert Apply(op, before, now).value.tables == after.tables;
  }

  lemma FirstMigrationWidens(db: Db, now: string)
    requires Shape(db) == LEGACY_FINGERPRINT
    ensures var ops := StepOperations(MIGRATION_1_TO_2);
      Walk(ops, 0, db, NO_FAULTS, now) == Walk(ops[5..], 5, Widening(db, 5), NO_FAULTS, now)
  {
    var ops := StepOperations(MIGRATION_1_TO_2);
    assert db.tables == Widening(db, 0).tables by { TablesOf(db, LEGACY_FINGERPRINT); }
    for n := 0 to 5
      invariant Walk(ops[0..], 0, db, NO_FAULTS, now) == Walk(ops[n..], n, Widening(db, n), NO_FAULTS, now)
    {
      WideningStep(db, n, now);
      WalkAt(ops, n, Widening(db, n), Widening(db, n + 1), now);
    }
    assert ops[0..] == ops;
  }

  lemma FirstMigrationRecords(db: Db, registry: Db, now: string)
    requires Shape(db) == LEGACY_FINGERPRINT
    requires registry == Widening(db, 5).(tables :=
      Widening(db, 5).tables[PrivateReview := Table(REVIEW_COLUMNS, [])][SchemaMigration := Table(RECEIPT_COLUMNS, [])])
    ensures Apply(Receipt(MIGRATION_1_TO_2.id, MIGRATION_1_TO_2.checksum), registry, now) == Some(InterimOf(db, now))
  {
    var op := Receipt(MIGRATION_1_TO_2.id, MIGRATION_1_TO_2.checksum);
    var done, expected := Apply(op, registry, now).value, InterimOf(db, now);
    assert done.tables[EncryptedSnapshot] == expected.tables[EncryptedSnapshot];
    assert done.tables[SyncState] == expected.tables[SyncState];
    assert done.tables[SchemaMigration] == expected.tables[SchemaMigration];
    assert done.tables.Keys == expected.tables.Keys;
    assert done.tables == expected.tables;
  }

  /** Revision 1 to revision 2 cannot be refused. */
  lemma FirstMigration(db: Db, now: string)
    requires Shape(db) == LEGACY_FINGERPRINT
    ensures Walk(StepOperations(MIGRATION_1_TO_2), 0, db, NO_FAULTS, now) == Ok(InterimOf(db, now))
  {
    var ops := StepOperations(MIGRATION_1_TO_2);
    FirstMigrationWidens(db, now);
    var wide := Widening(db, 5);
    var reviews := wide.(tables := wide.tables[PrivateReview := Table(REVIEW_COLUMNS, [])]);
    var registry := reviews.(tables := reviews.tables[SchemaMigration := Table(RECEIPT_COLUMNS, [])]);
    FirstMigrationRecords(db, registry, now);
    WalkAt(ops, 5, wide, reviews, now);
    WalkAt(ops, 6, reviews, registry, now);
    WalkAt(ops, 7, registry, InterimOf(db, now), now);
    assert ops[8..] == [];
  }

  lemma BackfillTakesFirst(db: Db)
    requires SnapshotsAnchorable(db)
    ensures Backfilled([], Rows(db, EncryptedSnapshot)) == Some(Anchors(db))
  {
    assert Singletons([]) == [] && First([]).None?;
    var selected := Singletons(Rows(db, EncryptedSnapshot));
    assert forall i :: 0 <= i < |selected| ==> Anchorable(selected[i]);
    if selected != [] {
      assert [] + [AnchorOf(selected[0])] == [AnchorOf(selected[0])];
      assert Backfilled([], Rows(db, EncryptedSnapshot)) == Some([] + [AnchorOf(selected[0])]);
    }
  }

  /** The container as the second migration fills it, up to its receipt. */
  function WithAnchors(db: Db, anchors: seq<Row>): Db {
    db.(tables := db.tables[LocalAccount := Table(ANCHOR_COLUMNS, anchors)])
  }

  function WithReceipt(db: Db, step: Migration, now: string): Db {
    db.(tables := db.tables[SchemaMigration :=
      Table(RECEIPT_COLUMNS, Stamped(Rows(db, SchemaMigration), step.id, step.checksum, now))])
  }

  lemma BackfillRuns(db: Db, now: string)
    requires Shape(db) == INTERIM_FINGERPRINT
    ensures Apply(Backfill, WithAnchors(db, []), now) ==
      if SnapshotsAnchorable(db) then Some(WithAnchors(db, Anchors(db))) else None
  {
    TablesOf(db, INTERIM_FINGERPRINT);
    if SnapshotsAnchorable(db) {
      BackfillTakesFirst(db);
      assert Apply(Backfill, WithAnchors(db, []), now).value.tables == WithAnchors(db, Anchors(db)).tables;
    }
  }

  lemma ReceiptRuns(db: Db, anchors: seq<Row>, now: string)
    requires Shape(db) == INTERIM_FINGERPRINT
    ensures Apply(Receipt(MIGRATION_2_TO_3.id, MIGRATION_2_TO_3.checksum), WithAnchors(db, anchors), now)
      == Some(WithReceipt(WithAnchors(db, anchors), MIGRATION_2_TO_3, now))
  {
    TablesOf(db, INTERIM_FINGERPRINT);
  }

  lemma FilledIsCurrent(db: Db, now: string)
    requires Shape(db) == INTERIM_FINGERPRINT && SnapshotsAnchorable(db)
    ensures WithReceipt(WithAnchors(db, Anchors(db)), MIGRATION_2_TO_3, now).(version := STORAGE) == CurrentOf(db, now)
  {
    TablesOf(db, INTERIM_FINGERPRINT);
    assert WithReceipt(WithAnchors(db, Anchors(db)), MIGRATION_2_TO_3, now).tables == CurrentOf(db, now).tables;
  }

  const SECOND := StepOperations(MIGRATION_2_TO_3) + [Mark]

  lemma SecondBegins(db: Db, now: string)
    requires Shape(db) == INTERIM_FINGERPRINT
    ensures Walk(SECOND, 0, db, NO_FAULTS, now) == Walk(SECOND[1..], 1, WithAnchors(db, []), NO_FAULTS, now)
  {
    TablesOf(db, INTERIM_FINGERPRINT);
    assert SECOND[0..] == SECOND;
    WalkAt(SECOND, 0, db, WithAnchors(db, []), now);
  }

  lemma SecondEnds(db: Db, now: string)
    requires Shape(db) == INTERIM_FINGERPRINT && SnapshotsAnchorable(db)
    ensures Walk(SECOND[2..], 2, WithAnchors(db, Anchors(db)), NO_FAULTS, now) == Ok(CurrentOf(db, now))
  {
    var filled := WithAnchors(db, Anchors(db));
    var stamped := WithReceipt(filled, MIGRATION_2_TO_3, now);
    ReceiptRuns(db, Anchors(db), now);
    FilledIsCurrent(db, now);
    WalkAt(SECOND, 2, filled, stamped, now);
    WalkAt(SECOND, 3, stamped, stamped.(version := STORAGE), now);
    assert SECOND[4..] == [];
  }

  /** Revision 2 to revision 3 is refused only by the backfill. */
  lemma SecondMigration(db: Db, now: string)
    requires Shape(db) == INTERIM_FINGERPRINT
    ensures var w := Walk(SECOND, 0, db, NO_FAULTS, now);
      if SnapshotsAnchorable(db) then w == Ok(CurrentOf(db, now)) else w == Err(MigrationFailed)
  {
    SecondBegins(db, now);
    BackfillRuns(db, now);
    if SnapshotsAnchorable(db) {
      WalkAt(SECOND, 1, WithAnchors(db, []), WithAnchors(db, Anchors(db)), now);
      SecondEnds(db, now);
    } else {
      assert SECOND[1..][0] == Backfill;
    }
  }

  lemma {:induction false} WalkIndexShift(ops: seq<Operation>, a: nat, b: nat, db: Db, now: string)
    ensures Walk(ops, a, db, NO_FAULTS, now) == Walk(ops, b, db, NO_FAULTS, now)
  {
    if ops == [] || Apply(ops[0], db, now).None? {
    } else {
      WalkIndexShift(ops[1..], a + 1, b + 1, Apply(ops[0], db, now).value, now);
    }
  }

  lemma ExtendedHead(rows: seq<Row>, c: Column, preset: Cell)
    requires rows != []
    ensures Extended(rows, c, preset) == [rows[0][c := preset]] + Extended(rows[1..], c, preset)
  {
  }

  /** A new column leaves the selection of rows alone. */
  lemma {:induction false} SingletonsOfExtended(rows: seq<Row>, c: Column, preset: Cell)
    requires c != Singleton
    ensures Singletons(Extended(rows, c, preset)) == Extended(Singletons(rows), c, preset)
  {
    if rows == [] {
    } else {
      var row, rest := rows[0], rows[1..];
      SingletonsOfExtended(rest, c, preset);
      ExtendedHead(rows, c, preset);
      assert Extended(rows, c, preset)[1..] == Extended(rest, c, preset);
      assert Get(row[c := preset], Singleton) == Get(row, Singleton);
      if IsSingleton(row) {
        ExtendedHead([row] + Singletons(rest), c, preset);
        assert ([row] + Singletons(rest))[1..] == Singletons(rest);
      }
    }
  }

  lemma SingletonsOfWiden(rows: seq<Row>)
    ensures Singletons(Widen(rows)) == Widen(Singletons(rows))
  {
    var r1 := Extended(rows, SnapshotGeneration, Integer(1));
    SingletonsOfExtended(rows, SnapshotGeneration, Integer(1));
    SingletonsOfExtended(r1, SourceObservedAt, Null);
    SingletonsOfExtended(Extended(r1, SourceObservedAt, Null), CompletenessBasis, Null);
  }

  /** Widening a row leaves the columns it had. */
  lemma WidenedCell(rows: seq<Row>, i: nat, c: Column)
    requires i < |rows| && c !in {SnapshotGeneration, SourceObservedAt, CompletenessBasis}
    ensures Get(Widen(rows)[i], c) == Get(rows[i], c)
  {
  }

  lemma WidenedIsAnchorable(db: Db, now: string)
    requires Shape(db) == LEGACY_FINGERPRINT
    ensures SnapshotsAnchorable(InterimOf(db, now)) <==> SnapshotsAnchorable(db)
  {
    var selected := Singletons(Rows(db, EncryptedSnapshot));
    SingletonsOfWiden(Rows(db, EncryptedSnapshot));
    assert Singletons(Rows(InterimOf(db, now), EncryptedSnapshot)) == Widen(selected);
    forall i | 0 <= i < |selected| ensures Anchorable(Widen(selected)[i]) <==> Anchorable(selected[i]) {
      WidenedCell(selected, i, AccountKey);
      WidenedCell(selected, i, Marketplace);
      WidenedCell(selected, i, ObservedAt);
    }
  }

  /** The anchor of the migrated container is the one its first snapshot row gives. */
  lemma FirstAnchor(db: Db)
    requires SnapshotsAnchorable(db)
    ensures var first := First(Rows(db, EncryptedSnapshot));
      First(Anchors(db)) == if first.None? then None else Some(AnchorOf(first.value))
  {
    var first := First(Rows(db, EncryptedSnapshot));
    if first.Some? {
      var selected := Singletons(Rows(db, EncryptedSnapshot));
      assert Anchorable(selected[0]);
      var anchor := AnchorOf(first.value);
      assert IsSingleton(anchor) && Singletons([anchor]) == [anchor] + Singletons([anchor][1..]);
    }
  }

  /** Reviews held against the anchor a snapshot row gives. */
  lemma AnchoredExactly(reviews: seq<Row>, row: Row)
    requires Anchorable(row)
    ensures ViolationOf(reviews, Some(AnchorOf(row))).None? <==>
      forall i :: 0 <= i < |reviews| ==>
        Get(reviews[i], AccountKey) in {Null, Text(AsText(Get(row, AccountKey)).value)}
  {
    var anchor, key := AnchorOf(row), Text(AsText(Get(row, AccountKey)).value);
    assert Get(anchor, AccountKey) == key;
    assert forall i :: 0 <= i < |reviews| ==> (Foreign(reviews[i], anchor) <==> Get(reviews[i], AccountKey) !in {Null, key});
  }

  lemma CurrentTables(db: Db, now: string)
    requires SnapshotsAnchorable(db)
    ensures Shape(CurrentOf(db, now)) == CURRENT_FINGERPRINT
    ensures Rows(CurrentOf(db, now), LocalAccount) == Anchors(db)
    ensures Rows(CurrentOf(db, now), PrivateReview) == Rows(db, PrivateReview)
  {
  }

  lemma CurrentShape(db: Db, now: string)
    requires SnapshotsAnchorable(db)
    ensures Shape(CurrentOf(db, now)) == CURRENT_FINGERPRINT
    ensures AnchorViolation(CurrentOf(db, now)).None? <==> ReviewsBelong(db)
  {
    CurrentTables(db, now);
    FirstAnchor(db);
    var first := First(Rows(db, EncryptedSnapshot));
    if first.Some? {
      assert Anchorable(Singletons(Rows(db, EncryptedSnapshot))[0]);
      AnchoredExactly(Rows(db, PrivateReview), first.value);
    }
  }

  // ---- Exactly when a migration succeeds ------------------------------------------

  function Judged(walked: Result<Db, Code>): Result<Db, Code> {
    if walked.Err? then walked
    else if Shape(walked.value) != CURRENT_FINGERPRINT || AnchorViolation(walked.value).Some? then Err(VerificationFailed)
    else walked
  }

  lemma StructuralIsJudged(db: Db, from: int, now: string)
    ensures Structural(db, from, NO_FAULTS, now)
      == Judged(Walk(ChainOperations(PendingMigrations(from)), 0, db, NO_FAULTS, now))
  {
  }

  lemma WalkThen(a: seq<Operation>, b: seq<Operation>, db: Db, middle: Db, now: string)
    requires Walk(a, 0, db, NO_FAULTS, now) == Ok(middle)
    ensures Walk(a + b, 0, db, NO_FAULTS, now) == Walk(b, 0, middle, NO_FAULTS, now)
  {
    WalkAppend(a, b, 0, db, NO_FAULTS, now);
    WalkIndexShift(b, |a|, 0, middle, now);
  }

  lemma InterimShape(db: Db, now: string)
    ensures Shape(InterimOf(db, now)) == INTERIM_FINGERPRINT
  {
  }

  lemma LegacyChain(db: Db, first: seq<Operation>, second: seq<Operation>, now: string)
    requires Shape(db) == LEGACY_FINGERPRINT
    requires first == StepOperations(MIGRATION_1_TO_2)
    ensures Walk(first + second, 0, db, NO_FAULTS, now) == Walk(second, 0, InterimOf(db, now), NO_FAULTS, now)
  {
    FirstMigration(db, now);
    WalkThen(first, second, db, InterimOf(db, now), now);
  }

  /** From revision 2 a migration succeeds exactly when the stored snapshot names its
      account and every review belongs to it. */
  lemma InterimMigratesExactly(db: Db, now: string)
    requires Shape(db) == INTERIM_FINGERPRINT
    ensures var r := Structural(db, INTERIM, NO_FAULTS, now);
      && (r.Ok? <==> SnapshotsAnchorable(db) && ReviewsBelong(db))
      && (r.Ok? ==> r.value == CurrentOf(db, now))
      && (r.Err? ==> r.error == if SnapshotsAnchorable(db) then VerificationFailed else MigrationFailed)
  {
    OperationCount();
    SecondMigration(db, now);
    StructuralIsJudged(db, INTERIM, now);
    if SnapshotsAnchorable(db) { CurrentShape(db, now); }
  }

  /** From revision 1 it succeeds for every stored library the revision could hold. */
  lemma LegacyMigratesExactly(db: Db, now: string)
    requires Shape(db) == LEGACY_FINGERPRINT
    ensures var r := Structural(db, LEGACY, NO_FAULTS, now);
      && (r.Ok? <==> SnapshotsAnchorable(db))
      && (r.Ok? ==> SnapshotsAnchorable(InterimOf(db, now)) && r.value == CurrentOf(InterimOf(db, now), now))
      && (r.Err? ==> r.error == MigrationFailed)
  {
    var middle := InterimOf(db, now);
    InterimShape(db, now);
    OperationCount();
    LegacyChain(db, StepOperations(MIGRATION_1_TO_2), ChainOperations(PendingMigrations(INTERIM)), now);
    StructuralIsJudged(db, LEGACY, now);
    StructuralIsJudged(middle, INTERIM, now);
    InterimMigratesExactly(middle, now);
    WidenedIsAnchorable(db, now);
    assert Rows(middle, PrivateReview) == [];
  }

  /** Stopping at any operation, or a disk failure at any of them or at the commit, refuses;
      past the last operation a stop has no effect. */
  lemma StoppedExactly(db: Db, from: int, f: Faults, now: string)
    requires from in {LEGACY, INTERIM}
    ensures var r, clean, n := Structural(db, from, f, now), Structural(db, from, NO_FAULTS, now),
                               |ChainOperations(PendingMigrations(from))|;
      && (r.Ok? <==> clean.Ok? && !Reached(f, 0, n) && f.diskAt != Some(n))
      && (r.Ok? ==> r == clean)
      && (clean.Ok? && f.diskAt.None? && Reached(f, 0, n) ==> r == Err(MigrationInterrupted))
  {
    var ops := ChainOperations(PendingMigrations(from));
    if Walk(ops, 0, db, NO_FAULTS, now).Ok? {
      WalkIsStoppedExactly(ops, 0, db, f, now);
    } else if Walk(ops, 0, db, f, now).Ok? {
      FaultsOnlyRefuse(ops, 0, db, f, now);
    }
  }

  // ---- The planner predicts the run --------------------------------------------------

  predicate CanMigrate(db: Db) {
    && SnapshotsAnchorable(db)
    && (Shape(db) == LEGACY_FINGERPRINT || ReviewsBelong(db))
  }

  const FRESH := Db(STORAGE, map[
    EncryptedSnapshot := Table(SNAPSHOT_COLUMNS_2, []), SyncState := Table(SYNC_COLUMNS_2, []),
    PrivateReview := Table(REVIEW_COLUMNS, []), SchemaMigration := Table(RECEIPT_COLUMNS, []),
    LocalAccount := Table(ANCHOR_COLUMNS, [])])

  function Creating(db: Db, n: nat): Db
    requires n <= 5
  {
    if n == 0 then db
    else
      var before, op := Creating(db, n - 1), CREATE_REVISION_3[n - 1];
      before.(tables := before.tables[op.table := Table(op.columns, [])])
  }

  lemma CreatingEndsFresh(db: Db)
    requires db.tables == map[]
    ensures Creating(db, 5).(version := STORAGE) == FRESH
  {
    var t1 := map[EncryptedSnapshot := Table(SNAPSHOT_COLUMNS_2, [])];
    assert Creating(db, 1).tables == t1;
    assert Creating(db, 2).tables == t1[SyncState := Table(SYNC_COLUMNS_2, [])];
    assert Creating(db, 3).tables == Creating(db, 2).tables[PrivateReview := Table(REVIEW_COLUMNS, [])];
    assert Creating(db, 4).tables == Creating(db, 3).tables[SchemaMigration := Table(RECEIPT_COLUMNS, [])];
    assert Creating(db, 5).tables == FRESH.tables;
  }

  lemma {:induction false} CreatingHas(db: Db, n: nat)
    requires db.tables == map[] && n <= 5
    ensures forall t :: t in Creating(db, n).tables <==> exists i :: 0 <= i < n && CREATE_REVISION_3[i].table == t
  {
    if n == 0 {
    } else {
      CreatingHas(db, n - 1);
    }
  }

  lemma CreateRuns(db: Db, n: nat, now: string)
    requires db.tables == map[] && n < 5
    ensures Apply(CREATE_REVISION_3[n], Creating(db, n), now) == Some(Creating(db, n + 1))
  {
    CreatingHas(db, n);
    assert CREATE_REVISION_3[n].CreateTable?;
    assert forall i :: 0 <= i < n ==> CREATE_REVISION_3[i].table != CREATE_REVISION_3[n].table;
  }

  lemma EmptyIsFilled(db: Db, now: string)
    requires db.tables == map[]
    ensures Walk(CREATE_REVISION_3 + [Mark], 0, db, NO_FAULTS, now) == Ok(FRESH)
  {
    var ops := CREATE_REVISION_3 + [Mark];
    for n := 0 to 5
      invariant Walk(ops[0..], 0, db, NO_FAULTS, now) == Walk(ops[n..], n, Creating(db, n), NO_FAULTS, now)
    {
      CreateRuns(db, n, now);
      assert ops[n] == CREATE_REVISION_3[n];
      WalkAt(ops, n, Creating(db, n), Creating(db, n + 1), now);
    }
    CreatingEndsFresh(db);
    WalkAt(ops, 5, Creating(db, 5), FRESH, now);
    assert ops[0..] == ops && ops[6..] == [];
  }

  lemma InitializesExactly(db: Db, f: Faults, now: string)
    requires Shape(db) == map[]
    ensures Initialize(db, f, now).Ok? <==> !(f.diskAt.Some? && 0 <= f.diskAt.value <= 6)
    ensures Initialize(db, f, now) in {Ok(FRESH), Err(MigrationFailed)}
  {
    var ops, quiet := CREATE_REVISION_3 + [Mark], f.(stopAfter := None);
    assert db.tables == map[] by { TablesOf(db, map[]); }
    EmptyIsFilled(db, now);
    WalkIsStoppedExactly(ops, 0, db, quiet, now);
    DiskFailureIsFailure(ops, 0, db, quiet, now);
  }

  lemma {:induction false} DiskFailureIsFailure(ops: seq<Operation>, applied: nat, db: Db, f: Faults, now: string)
    requires f.stopAfter.None?
    ensures Walk(ops, applied, db, f, now).Err? ==> Walk(ops, applied, db, f, now) == Err(MigrationFailed)
  {
    if ops == [] || Apply(ops[0], db, now).None? {
    } else {
      DiskFailureIsFailure(ops[1..], applied + 1, Apply(ops[0], db, now).value, f, now);
    }
  }

  /** With no interruption, every container does what the pure plan says. */
  lemma MigrationFollowsPlan(s: State, now: string, keep: bool)
    ensures var (after, r) := MigrateRun(s, NO_FAULTS, now, keep);
      match PlanFor(s.db).action
      case ActInitialize => r == Ok(Report(Initialized, 0, [], false)) && after == s.(db := FRESH)
      case ActMigrate => PlannedMigration(s, PlanFor(s.db).from.value, keep, after, r)
      case ActAdoptMarker => r == Ok(Report(AlreadyCurrent, STORAGE, [], false)) && after == s.(db := s.db.(version := STORAGE))
      case ActNothing => r == Ok(Report(AlreadyCurrent, STORAGE, [], false)) && after == s
      case ActRefuse => after == s && r == Err(RefusalCode(s.db))
  {
    FingerprintsDiffer();
    match PlanFor(s.db).action
    case ActInitialize => InitializesExactly(s.db, NO_FAULTS, now);
    case ActMigrate => MigratesAsPlanned(s, PlanFor(s.db).from.value, now, keep);
    case ActAdoptMarker =>
    case ActNothing =>
    case ActRefuse =>
  }

  lemma FingerprintsDiffer()
    ensures LEGACY_FINGERPRINT != map[] && INTERIM_FINGERPRINT != map[] && CURRENT_FINGERPRINT != map[]
    ensures LEGACY_FINGERPRINT != INTERIM_FINGERPRINT
    ensures LEGACY_FINGERPRINT != CURRENT_FINGERPRINT && INTERIM_FINGERPRINT != CURRENT_FINGERPRINT
  {
    assert EncryptedSnapshot in LEGACY_FINGERPRINT && EncryptedSnapshot in CURRENT_FINGERPRINT;
    assert PrivateReview !in LEGACY_FINGERPRINT && PrivateReview in INTERIM_FINGERPRINT;
    assert PrivateReview in CURRENT_FINGERPRINT;
    assert LocalAccount !in INTERIM_FINGERPRINT && LocalAccount in CURRENT_FINGERPRINT;
  }

  /** The run tells a marked container of the wrong shape from an unrecognized one; the plan
      calls both unrecognized. */
  function RefusalCode(db: Db): Code
    requires PlanFor(db).reason.Some?
  {
    if 0 < db.version <= STORAGE then SchemaPartiallyCreated else PlanFor(db).reason.value
  }

  /** Whatever the faults, what the plan refuses is refused with nothing touched, and for the
      plan's own reason exactly when no known revision is marked. */
  lemma RefusalIsPredictedExactly(s: State, f: Faults, now: string, keep: bool)
    ensures var (plan, (after, r)) := (PlanFor(s.db), MigrateRun(s, f, now, keep));
      plan.action.ActRefuse? ==>
        && after == s && r.Err?
        && (plan.reason == Some(r.error) <==> !(0 < s.db.version <= STORAGE))
  {
    FingerprintsDiffer();
  }

  /** A container marked as revision 2 in the shape of revision 1. */
  const MISMARKED := Db(INTERIM, map[EncryptedSnapshot := Table(SNAPSHOT_COLUMNS, []), SyncState := Table(SYNC_COLUMNS, [])])

  lemma RefusalCanBeMispredicted(backup: Option<Db>, f: Faults, now: string, keep: bool)
    ensures PlanFor(MISMARKED).reason == Some(SchemaUnknown)
    ensures MigrateRun(State(MISMARKED, backup), f, now, keep).1 == Err(SchemaPartiallyCreated)
  {
    assert Shape(MISMARKED) == LEGACY_FINGERPRINT;
    FingerprintsDiffer();
  }

  predicate PlannedMigration(s: State, from: int, keep: bool, after: State, r: Result<Report, Code>) {
    && (r.Ok? <==> CanMigrate(s.db))
    && (r.Ok? ==> r.value == Report(Migrated, from, Ids(PendingMigrations(from)), keep) && after.db.version == STORAGE)
    && (r.Err? ==> r.error in {MigrationFailed, VerificationFailed} && after.db == s.db)
    && after.backup == if keep && PlanFor(s.db).envelope then Some(s.db) else s.backup
  }

  lemma MigratesAsPlanned(s: State, from: int, now: string, keep: bool)
    requires (from == LEGACY && Shape(s.db) == LEGACY_FINGERPRINT) || (from == INTERIM && Shape(s.db) == INTERIM_FINGERPRINT)
    requires PlanFor(s.db).action.ActMigrate?
    ensures var (after, r) := StructuralRun(s, from, NO_FAULTS, now, keep);
      PlannedMigration(s, from, keep, after, r)
  {
    FingerprintsDiffer();
    if from == LEGACY { LegacyMigratesExactly(s.db, now); } else { InterimMigratesExactly(s.db, now); }
  }
}
