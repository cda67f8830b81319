/** What any migration run keeps, and what opening a container leaves on disk:
    src/store/migration.js and the constructor of src/store/encrypted-snapshot-store.js. */
module MigrationRuns {
  import opened Texts
  import opened Migration
  import opened MigrationLaws
  import Storage

  /** Every cell the old container held is still there; a migration receipt may be renewed. */
  ghost predicate KeepsRows(before: Db, after: Db) {
    && (forall t :: t in before.tables && t != SchemaMigration ==>
          && |Rows(after, t)| == |Rows(before, t)|
          && SameCells(before.tables[t].columns, Rows(before, t), Rows(after, t)))
    && forall i :: 0 <= i < |Rows(before, SchemaMigration)| ==>
         (var row := Rows(before, SchemaMigration)[i];
          row in Rows(after, SchemaMigration) || Get(row, MigrationId) == Text(MIGRATION_2_TO_3.id))
  }

  ghost predicate SameCells(columns: set<Column>, before: seq<Row>, after: seq<Row>)
    requires |before| == |after|
  {
    forall i, c :: 0 <= i < |before| && c in columns ==> Get(after[i], c) == Get(before[i], c)
  }

  lemma {:induction false} WithoutKeepsOthers(rows: seq<Row>, id: string, i: nat)
    requires i < |rows| && Get(rows[i], MigrationId) != Text(id)
    ensures rows[i] in Without(rows, id)
  {
    if i == 0 {
    } else {
      assert rows[i] == rows[1..][i - 1];
      WithoutKeepsOthers(rows[1..], id, i - 1);
    }
  }

  lemma CurrentOfKeepsReceipts(db: Db, now: string, i: nat)
    requires SnapshotsAnchorable(db) && i < |Rows(db, SchemaMigration)|
    requires Get(Rows(db, SchemaMigration)[i], MigrationId) != Text(MIGRATION_2_TO_3.id)
    ensures Rows(db, SchemaMigration)[i] in Rows(CurrentOf(db, now), SchemaMigration)
  {
    WithoutKeepsOthers(Rows(db, SchemaMigration), MIGRATION_2_TO_3.id, i);
  }

  lemma CurrentOfKeepsTables(db: Db, now: string)
    requires Shape(db) == INTERIM_FINGERPRINT && SnapshotsAnchorable(db)
    ensures forall t :: t in db.tables && t != SchemaMigration ==> Rows(CurrentOf(db, now), t) == Rows(db, t)
  {
    TablesOf(db, INTERIM_FINGERPRINT);
  }

  lemma CurrentOfKeepsRows(db: Db, now: string)
    requires Shape(db) == INTERIM_FINGERPRINT && SnapshotsAnchorable(db)
    ensures KeepsRows(db, CurrentOf(db, now))
  {
    var after, receipts := CurrentOf(db, now), Rows(db, SchemaMigration);
    CurrentOfKeepsTables(db, now);
    forall i | 0 <= i < |receipts|
      ensures receipts[i] in Rows(after, SchemaMigration) || Get(receipts[i], MigrationId) == Text(MIGRATION_2_TO_3.id)
    {
      if Get(receipts[i], MigrationId) != Text(MIGRATION_2_TO_3.id) { CurrentOfKeepsReceipts(db, now, i); }
    }
  }

  lemma InterimOfKeepsRows(db: Db, now: string)
    requires Shape(db) == LEGACY_FINGERPRINT
    ensures KeepsRows(db, InterimOf(db, now))
  {
    TablesOf(db, LEGACY_FINGERPRINT);
  }

  lemma LegacyKeepsRows(db: Db, now: string)
    requires Shape(db) == LEGACY_FINGERPRINT && SnapshotsAnchorable(InterimOf(db, now))
    ensures KeepsRows(db, CurrentOf(InterimOf(db, now), now))
  {
    TablesOf(db, LEGACY_FINGERPRINT);
    var middle := InterimOf(db, now);
    InterimOfKeepsRows(db, now);
    assert Rows(CurrentOf(middle, now), EncryptedSnapshot) == Rows(middle, EncryptedSnapshot);
    assert Rows(CurrentOf(middle, now), SyncState) == Rows(middle, SyncState);
    assert Rows(db, SchemaMigration) == [];
  }

  /** Everything a committed structural migration guarantees, under any faults. */
  lemma StructuralGuarantee(db: Db, from: int, f: Faults, now: string)
    requires (from == LEGACY && Shape(db) == LEGACY_FINGERPRINT) || (from == INTERIM && Shape(db) == INTERIM_FINGERPRINT)
    requires Structural(db, from, f, now).Ok?
    ensures var after := Structural(db, from, f, now).value;
      && after.version == STORAGE && Shape(after) == CURRENT_FINGERPRINT && AnchorViolation(after).None?
      && KeepsRows(db, after)
  {
    StoppedExactly(db, from, f, now);
    if from == LEGACY {
      LegacyMigratesExactly(db, now);
      LegacyKeepsRows(db, now);
    } else {
      InterimMigratesExactly(db, now);
      CurrentOfKeepsRows(db, now);
    }
  }

  predicate IsCurrent(db: Db) { db.version == STORAGE && Shape(db) == CURRENT_FINGERPRINT }

  /** Nothing changed, or all of it did. */
  ghost predicate AllOrNothing(before: Db, after: Db, r: Result<Report, Code>) {
    if r.Err? then after == before
    else
      && IsCurrent(after)
      && KeepsRows(before, after)
      && (r.value.outcome != AlreadyCurrent ==> AnchorViolation(after).None?)
  }

  lemma StructuralIsAllOrNothing(s: State, from: int, f: Faults, now: string, keep: bool)
    requires (from == LEGACY && Shape(s.db) == LEGACY_FINGERPRINT) || (from == INTERIM && Shape(s.db) == INTERIM_FINGERPRINT)
    ensures var (after, r) := StructuralRun(s, from, f, now, keep); AllOrNothing(s.db, after.db, r)
  {
    if Structural(s.db, from, f, now).Ok? { StructuralGuarantee(s.db, from, f, now); }
  }

  lemma EmptyIsAllOrNothing(s: State, f: Faults, now: string, keep: bool)
    requires s.db.version == 0 && Shape(s.db) == map[]
    ensures var (after, r) := MigrateRun(s, f, now, keep); AllOrNothing(s.db, after.db, r)
  {
    InitializeGuarantee(s.db, f, now);
  }

  predicate Migrates(class_: Class) { class_.Legacy? || class_.Interim? }

  /** What a container that is neither empty nor migrated meets. */
  lemma SettledRun(s: State, f: Faults, now: string, keep: bool)
    requires var class_ := ClassifyContainer(s.db.version, Shape(s.db)); !class_.Empty? && !Migrates(class_)
    ensures var (after, r) := MigrateRun(s, f, now, keep);
      match ClassifyContainer(s.db.version, Shape(s.db))
      case Current => after == s && IsCurrent(s.db) && r == Ok(Report(AlreadyCurrent, STORAGE, [], false))
      case CurrentUnmarked =>
        && Shape(s.db) == CURRENT_FINGERPRINT
        && after == s.(db := s.db.(version := STORAGE)) && r == Ok(Report(AlreadyCurrent, STORAGE, [], false))
      case Newer => after == s && r == Err(SchemaNewer)
      case Unknown => after == s && r == Err(RefusalCode(s.db))
      case _ => true
  {
    FingerprintsDiffer();
  }

  lemma MarkingKeepsRows(db: Db)
    ensures KeepsRows(db, db) && KeepsRows(db, db.(version := STORAGE)) && Shape(db.(version := STORAGE)) == Shape(db)
  {
  }

  lemma SettledIsAllOrNothing(s: State, f: Faults, now: string, keep: bool)
    requires var class_ := ClassifyContainer(s.db.version, Shape(s.db)); !class_.Empty? && !Migrates(class_)
    ensures var (after, r) := MigrateRun(s, f, now, keep); AllOrNothing(s.db, after.db, r)
  {
    SettledRun(s, f, now, keep);
    MarkingKeepsRows(s.db);
  }

  /** A recognized older container runs the structural migration from its revision. */
  lemma MigratingRun(s: State, f: Faults, now: string, keep: bool) returns (from: int)
    requires Migrates(ClassifyContainer(s.db.version, Shape(s.db)))
    ensures (from == LEGACY && Shape(s.db) == LEGACY_FINGERPRINT) || (from == INTERIM && Shape(s.db) == INTERIM_FINGERPRINT)
    ensures ClassifyContainer(s.db.version, Shape(s.db)) == if from == LEGACY then Legacy else Interim
    ensures MigrateRun(s, f, now, keep) == StructuralRun(s, from, f, now, keep)
  {
    FingerprintsDiffer();
    from := if Shape(s.db) == LEGACY_FINGERPRINT then LEGACY else INTERIM;
  }

  /** The rollback envelope is written exactly when it is planned and asked for, whatever stops
      the run afterwards. */
  lemma EnvelopeIsWrittenAsPlanned(s: State, f: Faults, now: string, keep: bool)
    ensures var (planned, (after, r)) := (keep && PlanFor(s.db).envelope, MigrateRun(s, f, now, keep));
      && after.backup == (if planned then Some(s.db) else s.backup)
      && (r.Ok? ==> r.value.backedUp == planned)
  {
    var class_ := ClassifyContainer(s.db.version, Shape(s.db));
    if class_.Empty? {
      FingerprintsDiffer();
    } else if Migrates(class_) {
      var from := MigratingRun(s, f, now, keep);
    } else {
      SettledRun(s, f, now, keep);
    }
  }

  /** Whatever stops it and wherever, a refused migration leaves version, shape and rows as
      they were; one that reports success leaves a current container with every row. */
  lemma MigrationIsAllOrNothing(s: State, f: Faults, now: string, keep: bool)
    ensures var (after, r) := MigrateRun(s, f, now, keep); AllOrNothing(s.db, after.db, r)
  {
    var class_ := ClassifyContainer(s.db.version, Shape(s.db));
    if class_.Empty? {
      EmptyIsAllOrNothing(s, f, now, keep);
    } else if Migrates(class_) {
      var from := MigratingRun(s, f, now, keep);
      StructuralIsAllOrNothing(s, from, f, now, keep);
    } else {
      SettledIsAllOrNothing(s, f, now, keep);
    }
  }

  lemma InitializeGuarantee(db: Db, f: Faults, now: string)
    requires Shape(db) == map[]
    ensures IsCurrent(FRESH) && AnchorViolation(FRESH).None? && KeepsRows(db, FRESH)
    ensures Initialize(db, f, now) in {Ok(FRESH), Err(MigrationFailed)}
  {
    InitializesExactly(db, f, now);
    TablesOf(db, map[]);
  }

  /** Migrating again changes nothing, whatever faults the second run meets. */
  lemma SecondRunIsNoOp(s: State, f: Faults, now: string, keep: bool, g: Faults, later: string, keepAgain: bool)
    requires MigrateRun(s, f, now, keep).1.Ok?
    ensures var after := MigrateRun(s, f, now, keep).0;
      MigrateRun(after, g, later, keepAgain) == (after, Ok(Report(AlreadyCurrent, STORAGE, [], false)))
  {
    MigrationIsAllOrNothing(s, f, now, keep);
  }

  /** A run stopped before operation `n` refuses; running it again then does what it would
      have done at first. Twelve operations from revision 1, four from revision 2. */
  lemma InterruptedRunCanBeRepeated(s: State, n: int, now: string, later: string)
    requires PlanFor(s.db).action == ActMigrate && CanMigrate(s.db)
    ensures var count := if PlanFor(s.db).from == Some(LEGACY) then 12 else 4;
      var (after, r) := MigrateRun(s, Faults(Some(n), None), now, true);
      && (r == Err(MigrationInterrupted) <==> n < count)
      && (r.Ok? <==> n >= count)
      && (n < count ==> MigrateRun(after, NO_FAULTS, later, true) == MigrateRun(s, NO_FAULTS, later, true))
  {
    FingerprintsDiffer();
    OperationCount();
    var from := PlanFor(s.db).from.value;
    MigratesAsPlanned(s, from, now, true);
    StoppedExactly(s.db, from, Faults(Some(n), None), now);
    StructuralIsJudged(s.db, from, now);
  }

  /** The account of the first row, as a text column holds it. */
  function AccountOf(rows: seq<Row>): Option<string> {
    if First(rows).None? then None else AsText(Get(First(rows).value, AccountKey))
  }

  /** After a migration the anchor names the account of the snapshot it was filled from. */
  lemma AnchorNamesTheSnapshotAccount(s: State, f: Faults, now: string, keep: bool)
    requires PlanFor(s.db).action == ActMigrate && MigrateRun(s, f, now, keep).1.Ok?
    ensures var after := MigrateRun(s, f, now, keep).0.db;
      AccountOf(Rows(after, LocalAccount)) == AccountOf(Rows(s.db, EncryptedSnapshot))
  {
    FingerprintsDiffer();
    StructuralAnchor(s.db, PlanFor(s.db).from.value, f, now);
  }

  lemma StructuralAnchor(db: Db, from: int, f: Faults, now: string)
    requires (from == LEGACY && Shape(db) == LEGACY_FINGERPRINT) || (from == INTERIM && Shape(db) == INTERIM_FINGERPRINT)
    requires Structural(db, from, f, now).Ok?
    ensures var after := Structural(db, from, f, now).value;
      AccountOf(Rows(after, LocalAccount)) == AccountOf(Rows(db, EncryptedSnapshot))
  {
    StoppedExactly(db, from, f, now);
    if from == LEGACY {
      LegacyMigratesExactly(db, now);
      WidenedAccount(db, now);
      AnchorIsFirst(InterimOf(db, now), now);
    } else {
      InterimMigratesExactly(db, now);
      AnchorIsFirst(db, now);
    }
  }

  lemma AnchorIsFirst(db: Db, now: string)
    requires SnapshotsAnchorable(db)
    ensures AccountOf(Rows(CurrentOf(db, now), LocalAccount)) == AccountOf(Rows(db, EncryptedSnapshot))
  {
    var first, selected := First(Rows(db, EncryptedSnapshot)), Singletons(Rows(db, EncryptedSnapshot));
    if first.Some? {
      assert Anchorable(selected[0]);
      var anchor := AnchorOf(first.value);
      assert Singletons([anchor]) == [anchor] + Singletons([anchor][1..]);
    }
  }

  lemma WidenedAccount(db: Db, now: string)
    requires Shape(db) == LEGACY_FINGERPRINT
    ensures var before, after := First(Rows(db, EncryptedSnapshot)), First(Rows(InterimOf(db, now), EncryptedSnapshot));
      && (before.Some? <==> after.Some?)
      && (before.Some? ==> Get(after.value, AccountKey) == Get(before.value, AccountKey))
  {
    var selected := Singletons(Rows(db, EncryptedSnapshot));
    SingletonsOfWiden(Rows(db, EncryptedSnapshot));
    assert Singletons(Rows(InterimOf(db, now), EncryptedSnapshot)) == Widen(selected);
    if selected != [] { WidenedCell(selected, 0, AccountKey); }
  }

  /** The anchor says whose library it is: account and marketplace of the snapshot row, known
      and confirmed when that was observed. */
  ghost predicate AnchorTells(anchor: Row, row: Row) {
    && Anchorable(row)
    && Get(anchor, AccountKey) == Text(AsText(Get(row, AccountKey)).value)
    && Get(anchor, Marketplace) == Text(AsText(Get(row, Marketplace)).value)
    && Get(anchor, EstablishedAt) == Text(AsText(Get(row, ObservedAt)).value)
    && Get(anchor, LastConfirmedAt) == Text(AsText(Get(row, ObservedAt)).value)
  }

  ghost predicate AnchorTellsOf(anchors: seq<Row>, snapshots: seq<Row>) {
    && (First(anchors).Some? <==> First(snapshots).Some?)
    && (First(anchors).Some? ==> AnchorTells(First(anchors).value, First(snapshots).value))
  }

  lemma CurrentAnchorTells(db: Db, now: string)
    requires SnapshotsAnchorable(db)
    ensures AnchorTellsOf(Rows(CurrentOf(db, now), LocalAccount), Rows(db, EncryptedSnapshot))
  {
    CurrentTables(db, now);
    FirstAnchor(db);
    var first := First(Rows(db, EncryptedSnapshot));
    if first.Some? { assert Anchorable(Singletons(Rows(db, EncryptedSnapshot))[0]); }
  }

  lemma WidenedRowTells(db: Db, now: string, anchors: seq<Row>)
    requires Shape(db) == LEGACY_FINGERPRINT && AnchorTellsOf(anchors, Rows(InterimOf(db, now), EncryptedSnapshot))
    ensures AnchorTellsOf(anchors, Rows(db, EncryptedSnapshot))
  {
    var selected := Singletons(Rows(db, EncryptedSnapshot));
    SingletonsOfWiden(Rows(db, EncryptedSnapshot));
    assert Singletons(Rows(InterimOf(db, now), EncryptedSnapshot)) == Widen(selected);
    if selected != [] {
      WidenedCell(selected, 0, AccountKey);
      WidenedCell(selected, 0, Marketplace);
      WidenedCell(selected, 0, ObservedAt);
    }
  }

  lemma StructuralAnchorTells(db: Db, from: int, f: Faults, now: string)
    requires (from == LEGACY && Shape(db) == LEGACY_FINGERPRINT) || (from == INTERIM && Shape(db) == INTERIM_FINGERPRINT)
    requires Structural(db, from, f, now).Ok?
    ensures AnchorTellsOf(Rows(Structural(db, from, f, now).value, LocalAccount), Rows(db, EncryptedSnapshot))
  {
    StoppedExactly(db, from, f, now);
    if from == LEGACY {
      LegacyMigratesExactly(db, now);
      CurrentAnchorTells(InterimOf(db, now), now);
      WidenedRowTells(db, now, Rows(CurrentOf(InterimOf(db, now), now), LocalAccount));
    } else {
      InterimMigratesExactly(db, now);
      CurrentAnchorTells(db, now);
    }
  }

  /** After a migration there is an anchor exactly if there was a snapshot, and it tells of it. */
  lemma MigratedAnchorTells(s: State, f: Faults, now: string, keep: bool)
    requires PlanFor(s.db).action == ActMigrate && MigrateRun(s, f, now, keep).1.Ok?
    ensures AnchorTellsOf(Rows(MigrateRun(s, f, now, keep).0.db, LocalAccount), Rows(s.db, EncryptedSnapshot))
  {
    var from := MigratingRun(s, f, now, keep);
    StructuralAnchorTells(s.db, from, f, now);
  }

  // ---- What a migration adds -----------------------------------------------------

  function ReceiptRow(step: Migration, now: string): Row {
    map[MigrationId := Text(step.id), AppliedAt := Text(now), Checksum := Text(step.checksum)]
  }

  /** The columns revision 2 brought are filled: stored snapshots count as the first generation,
      sync states as none, and nothing is claimed of observations. */
  ghost predicate NewColumnsFilled(db: Db) {
    && (forall i :: 0 <= i < |Rows(db, EncryptedSnapshot)| ==>
          var row := Rows(db, EncryptedSnapshot)[i];
          && Get(row, SnapshotGeneration) == Integer(1)
          && Get(row, SourceObservedAt) == Null && Get(row, CompletenessBasis) == Null)
    && (forall i :: 0 <= i < |Rows(db, SyncState)| ==>
          var row := Rows(db, SyncState)[i];
          Get(row, SnapshotGeneration) == Integer(0) && Get(row, LastCandidateObservedAt) == Null)
  }

  /** The receipt is there once, and last. */
  ghost predicate ReceiptIsLast(rows: seq<Row>, step: Migration, now: string) {
    && rows != [] && rows[|rows| - 1] == ReceiptRow(step, now)
    && forall i :: 0 <= i < |rows| - 1 ==> Get(rows[i], MigrationId) != Text(step.id)
  }

  lemma {:induction false} WithoutDrops(rows: seq<Row>, id: string)
    ensures forall i :: 0 <= i < |Without(rows, id)| ==> Get(Without(rows, id)[i], MigrationId) != Text(id)
  {
    if rows == [] {
    } else {
      WithoutDrops(rows[1..], id);
    }
  }

  lemma StampedIsLast(rows: seq<Row>, step: Migration, now: string)
    ensures ReceiptIsLast(Stamped(rows, step.id, step.checksum, now), step, now)
  {
    WithoutDrops(rows, step.id);
  }

  lemma WidenIsFilled(db: Db, now: string)
    ensures NewColumnsFilled(InterimOf(db, now))
  {
  }

  lemma FilledStays(db: Db, now: string)
    requires SnapshotsAnchorable(db) && NewColumnsFilled(db)
    ensures NewColumnsFilled(CurrentOf(db, now))
  {
    assert Rows(CurrentOf(db, now), EncryptedSnapshot) == Rows(db, EncryptedSnapshot);
    assert Rows(CurrentOf(db, now), SyncState) == Rows(db, SyncState);
  }

  lemma TwoReceipts(db: Db, now: string)
    requires SnapshotsAnchorable(InterimOf(db, now))
    ensures Rows(CurrentOf(InterimOf(db, now), now), SchemaMigration)
         == [ReceiptRow(MIGRATION_1_TO_2, now), ReceiptRow(MIGRATION_2_TO_3, now)]
  {
    var first := ReceiptRow(MIGRATION_1_TO_2, now);
    assert Rows(InterimOf(db, now), SchemaMigration) == [first] by { FirstReceipt(db, now); }
    MigrationIdsDiffer();
    OneOtherStays(first, MIGRATION_2_TO_3.id);
  }

  lemma MigrationIdsDiffer()
    ensures MIGRATION_1_TO_2.id != MIGRATION_2_TO_3.id
  {
    assert MIGRATION_1_TO_2.id[15] == '1' && MIGRATION_2_TO_3.id[15] == '2';
  }

  lemma FirstReceipt(db: Db, now: string)
    ensures Rows(InterimOf(db, now), SchemaMigration) == [ReceiptRow(MIGRATION_1_TO_2, now)]
  {
    assert Without([], MIGRATION_1_TO_2.id) == [];
  }

  lemma OneOtherStays(row: Row, id: string)
    requires Get(row, MigrationId) != Text(id)
    ensures Without([row], id) == [row]
  {
    assert [row][1..] == [] && Without([], id) == [];
  }

  /** A migration leaves a receipt of every revision it brought, in order, at its own time; from
      revision 1 it also fills the new columns. */
  lemma MigrationLeavesReceipts(s: State, f: Faults, now: string, keep: bool)
    requires PlanFor(s.db).action == ActMigrate && MigrateRun(s, f, now, keep).1.Ok?
    ensures
      var after := MigrateRun(s, f, now, keep).0.db;
      if PlanFor(s.db).from == Some(LEGACY) then
        && NewColumnsFilled(after)
        && Rows(after, SchemaMigration) == [ReceiptRow(MIGRATION_1_TO_2, now), ReceiptRow(MIGRATION_2_TO_3, now)]
      else ReceiptIsLast(Rows(after, SchemaMigration), MIGRATION_2_TO_3, now)
  {
    var from := MigratingRun(s, f, now, keep);
    StoppedExactly(s.db, from, f, now);
    if from == LEGACY {
      LegacyMigratesExactly(s.db, now);
      WidenIsFilled(s.db, now);
      FilledStays(InterimOf(s.db, now), now);
      TwoReceipts(s.db, now);
    } else {
      InterimMigratesExactly(s.db, now);
      StampedIsLast(Rows(s.db, SchemaMigration), MIGRATION_2_TO_3, now);
    }
  }

  // ---- Opening a container --------------------------------------------------------

  /** The constructor's own shape check never fires after a migration that returned. */
  lemma SchemaUnexpectedIsUnreachable(s: State, f: Faults, now: string)
    ensures OpenRun(s, f, now).1 != Err(SchemaUnexpected)
    ensures MigrateRun(s, f, now, true).1 != Err(SchemaUnexpected)
  {
    MigrationIsAllOrNothing(s, f, now, true);
    NeverUnexpected(s, f, now);
  }

  lemma {:induction false} WalkErrors(ops: seq<Operation>, applied: nat, db: Db, f: Faults, now: string)
    ensures Walk(ops, applied, db, f, now).Err? ==>
      Walk(ops, applied, db, f, now).error in {MigrationInterrupted, MigrationFailed}
  {
    if ops == [] || Apply(ops[0], db, now).None? {
    } else {
      WalkErrors(ops[1..], applied + 1, Apply(ops[0], db, now).value, f, now);
    }
  }

  lemma StructuralErrors(db: Db, from: int, f: Faults, now: string)
    ensures var r := Structural(db, from, f, now);
      r.Err? ==> r.error in {MigrationInterrupted, MigrationFailed, VerificationFailed}
  {
    WalkErrors(ChainOperations(PendingMigrations(from)), 0, db, f, now);
  }

  lemma NeverUnexpected(s: State, f: Faults, now: string)
    ensures MigrateRun(s, f, now, true).1 != Err(SchemaUnexpected)
  {
    var class_ := ClassifyContainer(s.db.version, Shape(s.db));
    if class_.Empty? {
      InitializesExactly(s.db, f, now);
    } else if Migrates(class_) {
      var from := MigratingRun(s, f, now, true);
      StructuralErrors(s.db, from, f, now);
    } else {
      SettledRun(s, f, now, true);
    }
  }

  lemma RefusedMigratingOpen(s: State, from: int, f: Faults, now: string)
    requires (from == LEGACY && Shape(s.db) == LEGACY_FINGERPRINT) || (from == INTERIM && Shape(s.db) == INTERIM_FINGERPRINT)
    ensures var (after, r) := StructuralRun(s, from, f, now, true);
      Checked(after, r).1.Err? ==> Checked(after, r).0.db == s.db
  {
    StructuralErrors(s.db, from, f, now);
    StructuralIsAllOrNothing(s, from, f, now, true);
  }

  lemma RefusedEmptyOpen(s: State, f: Faults, now: string)
    requires s.db.version == 0 && Shape(s.db) == map[] && OpenRun(s, f, now).1.Err?
    ensures OpenRun(s, f, now).0.db == if s.backup.Some? then s.backup.value else s.db
  {
    InitializeGuarantee(s.db, f, now);
  }

  /** A refused opening changes the file in exactly two cases: an unmarked current container
      is marked before its ownership check fails, and a failed first initialization is
      answered with an envelope left from an earlier migration. */
  lemma RefusedOpenLeavesTheFileExactly(s: State, f: Faults, now: string)
    requires OpenRun(s, f, now).1.Err?
    ensures var after, class_ := OpenRun(s, f, now).0, ClassifyContainer(s.db.version, Shape(s.db));
      after.db ==
        if class_ == CurrentUnmarked then s.db.(version := STORAGE)
        else if class_ == Empty && s.backup.Some? then s.backup.value
        else s.db
  {
    var class_ := ClassifyContainer(s.db.version, Shape(s.db));
    if class_.Empty? {
      RefusedEmptyOpen(s, f, now);
    } else if Migrates(class_) {
      var from := MigratingRun(s, f, now, true);
      RefusedMigratingOpen(s, from, f, now);
    } else {
      SettledRun(s, f, now, true);
    }
  }

  /** A container of the current shape, unmarked, with a review and no anchor. */
  const UNANCHORED := FRESH.(version := 0,
    tables := FRESH.tables[PrivateReview := Table(REVIEW_COLUMNS, [map[AccountKey := Text("a")]])])

  lemma UnanchoredIsFound()
    ensures Shape(UNANCHORED) == CURRENT_FINGERPRINT
    ensures AnchorViolation(UNANCHORED.(version := STORAGE)) == Some(Storage.ReviewWithoutAccountAnchor)
  {
    assert Rows(UNANCHORED, LocalAccount) == [] && Singletons([]) == [];
  }

  /** It is marked as current, and refused. */
  lemma RefusedOpenCanMarkTheFile(backup: Option<Db>, f: Faults, now: string)
    ensures var (after, r) := OpenRun(State(UNANCHORED, backup), f, now);
      && r == Err(Violated(Storage.ReviewWithoutAccountAnchor))
      && after.db == UNANCHORED.(version := STORAGE)
      && after.db.version != UNANCHORED.version
  {
    UnanchoredIsFound();
    FingerprintsDiffer();
    SettledRun(State(UNANCHORED, backup), f, now, true);
    MarkingKeepsRows(UNANCHORED);
  }

  /** What an existing container must be for its store to open. */
  predicate Opens(db: Db) {
    match ClassifyContainer(db.version, Shape(db))
    case Empty => true
    case Legacy => SnapshotsAnchorable(db)
    case Interim => SnapshotsAnchorable(db) && ReviewsBelong(db)
    case Current => AnchorViolation(db).None?
    case CurrentUnmarked => AnchorViolation(db).None?
    case _ => false
  }

  ghost predicate OpensAs(before: Db, after: Db, r: Result<Report, Code>) {
    && (r.Ok? <==> Opens(before))
    && (r.Ok? ==> IsCurrent(after) && AnchorViolation(after).None?)
  }

  lemma EmptyOpens(s: State, now: string)
    requires s.db.version == 0 && Shape(s.db) == map[]
    ensures OpensAs(s.db, OpenRun(s, NO_FAULTS, now).0.db, OpenRun(s, NO_FAULTS, now).1)
  {
    InitializesExactly(s.db, NO_FAULTS, now);
    InitializeGuarantee(s.db, NO_FAULTS, now);
  }

  lemma SoundIsOpened(after: State, r: Result<Report, Code>)
    requires r.Ok? ==> IsCurrent(after.db) && AnchorViolation(after.db).None?
    ensures Checked(after, r).1 == r && (r.Ok? ==> Checked(after, r).0 == after)
  {
  }

  lemma OpensWhenMigrated(db: Db, from: int)
    requires (from == LEGACY && Shape(db) == LEGACY_FINGERPRINT) || (from == INTERIM && Shape(db) == INTERIM_FINGERPRINT)
    requires ClassifyContainer(db.version, Shape(db)) == if from == LEGACY then Legacy else Interim
    ensures Opens(db) <==> CanMigrate(db)
  {
    FingerprintsDiffer();
  }

  lemma MigratingOpens(s: State, from: int, now: string)
    requires (from == LEGACY && Shape(s.db) == LEGACY_FINGERPRINT) || (from == INTERIM && Shape(s.db) == INTERIM_FINGERPRINT)
    requires ClassifyContainer(s.db.version, Shape(s.db)) == if from == LEGACY then Legacy else Interim
    ensures var (after, r) := StructuralRun(s, from, NO_FAULTS, now, true);
      OpensAs(s.db, Checked(after, r).0.db, Checked(after, r).1)
  {
    var (after, r) := StructuralRun(s, from, NO_FAULTS, now, true);
    OpensWhenMigrated(s.db, from);
    assert r.Ok? <==> CanMigrate(s.db) by { MigratesAsPlanned(s, from, now, true); }
    assert r.Ok? ==> IsCurrent(after.db) && AnchorViolation(after.db).None? by {
      if r.Ok? { StructuralGuarantee(s.db, from, NO_FAULTS, now); }
    }
    SoundIsOpened(after, r);
  }

  /** Without faults a container opens exactly when it is fresh, or its rows can be anchored
      and belong to the anchored account; what opens is current and owned. */
  lemma OpensExactly(s: State, now: string)
    ensures OpensAs(s.db, OpenRun(s, NO_FAULTS, now).0.db, OpenRun(s, NO_FAULTS, now).1)
  {
    var class_ := ClassifyContainer(s.db.version, Shape(s.db));
    if class_.Empty? {
      EmptyOpens(s, now);
    } else if Migrates(class_) {
      var from := MigratingRun(s, NO_FAULTS, now, true);
      MigratingOpens(s, from, now);
    } else {
      SettledRun(s, NO_FAULTS, now, true);
    }
  }
}
