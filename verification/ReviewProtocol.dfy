/** Every interleaving of saves and deletes on the private_review table, without a purge.
    The steps are the uninterrupted stretches of src/store/feedback-store.js. */
module ReviewProtocol {
  import opened Texts
  import opened Feedback
  import opened Reviews

  type CallId = nat

  /** The table and the saves that have suspended. */
  datatype System = System(table: Table, pending: map<CallId, Pending>)

  datatype Step =
    | Begin(call: CallId, key: Key, input: Result<Payload, FeedbackError>, expected: string)
    | Finish(call: CallId, unsealed: bool, now: Option<Instant>, hex: string)
    | Commit(call: CallId, blobBytes: Option<nat>)
    | Delete(key: Key, expected: string, hex: string)

  datatype Response =
    | Suspended
    | Wrote(saved: Saved)
    | Deleted(revision: string, generation: nat)
    | Refused(error: FeedbackError)
    | NoSuchCall

  function Without<V>(m: map<CallId, V>, id: CallId): map<CallId, V> { m - {id} }

  function Next(s: System, step: Step): (System, Response) {
    match step
    case Begin(call, key, input, expected) =>
      if call in s.pending then (s, NoSuchCall)
      else
        var began := BeginSave(s.table, key, input, expected);
        if began.Err? then (s, Refused(began.error))
        else (s.(pending := s.pending[call := began.value]), Suspended)
    case Finish(call, unsealed, now, hex) =>
      if call !in s.pending || !s.pending[call].Opening? then (s, NoSuchCall)
      else
        (match FinishOpen(s.table, s.pending[call], unsealed, now, hex)
         case Failed(error) => (s.(pending := Without(s.pending, call)), Refused(error))
         case NoChange(saved) => (s.(pending := Without(s.pending, call)), Wrote(saved))
         case Proceed(next) => (s.(pending := s.pending[call := next]), Suspended))
    case Commit(call, blobBytes) =>
      if call !in s.pending || !s.pending[call].Sealing? then (s, NoSuchCall)
      else
        var p := s.pending[call];
        var error := CommitError(s.table, p, blobBytes);
        (System(CommitTable(s.table, p, blobBytes), Without(s.pending, call)),
         if error.Some? then Refused(error.value)
         else Wrote(Saved(p.record, p.revision, p.generation, false)))
    case Delete(key, expected, hex) =>
      var error := DeleteError(s.table, key, expected);
      (s.(table := DeleteTable(s.table, key, expected, hex)),
       if error.Some? then Refused(error.value)
       else Deleted(IssueRevision(s.table[key].generation + 1, hex), s.table[key].generation + 1))
  }

  /** The state after the first `n` steps. */
  function After(s: System, steps: seq<Step>, n: nat): System
    requires n <= |steps|
  {
    if n == 0 then s else Next(After(s, steps, n - 1), steps[n - 1]).0
  }

  function ResponseAt(s: System, steps: seq<Step>, k: nat): Response
    requires k < |steps|
  {
    Next(After(s, steps, k), steps[k]).1
  }

  // ---- The invariant ------------------------------------------------------

  /** Generations only rise, and at equal generation it is the same row. */
  ghost predicate NotOlder(before: Option<Row>, after: Option<Row>) {
    && GenerationOf(before) <= GenerationOf(after)
    && (GenerationOf(before) == GenerationOf(after) ==> before == after)
  }

  /** What a suspended save remembers is the present row or an older one. */
  ghost predicate PendingOk(t: Table, p: Pending) {
    && RowOptionOk(p.key, p.current)
    && NotOlder(p.current, Lookup(t, p.key))
    && (p.Sealing? ==>
          && p.generation == GenerationOf(p.current) + 1
          && p.revision == IssueRevision(p.generation, p.hex)
          && p.record == BuildRecord(p.key, p.input,
               if IsActive(p.current) then Some(p.current.value.payload.value.record) else None,
               p.now, p.revision, p.generation)
          && !(IsActive(p.current) && p.current.value.payload.value.record.payload == p.input))
  }

  ghost predicate Inv(s: System) {
    && TableOk(s.table)
    && forall call :: call in s.pending ==> PendingOk(s.table, s.pending[call])
  }

  /** One key's row either stays or is replaced by a row one generation later. */
  ghost predicate Advances(before: Option<Row>, after: Option<Row>) {
    before == after || (after.Some? && GenerationOf(after) == GenerationOf(before) + 1)
  }

  lemma TokenDeterminesRow(t: Table, key: Key, remembered: Option<Row>)
    requires TableOk(t) && RowOptionOk(key, remembered)
    requires Token(Lookup(t, key)) == Token(remembered)
    ensures GenerationOf(Lookup(t, key)) == GenerationOf(remembered)
  {
    TokenNamesGeneration(0, "");
  }

  lemma UpdateKeepsTableOk(t: Table, key: Key, row: Row)
    requires TableOk(t) && RowOk(key, row) && row.generation == GenerationOf(Lookup(t, key)) + 1
    ensures TableOk(t[key := row])
    ensures forall k :: Advances(Lookup(t, k), Lookup(t[key := row], k))
  {
  }

  /** The row a successful commit writes. */
  function CommittedRow(p: Pending): Row
    requires p.Sealing?
  {
    Row(p.generation, p.revision, false, Some(Seal(p.key, p.generation, p.record)))
  }

  lemma CommittedRowOk(t: Table, p: Pending, blobBytes: Option<nat>)
    requires TableOk(t) && p.Sealing? && PendingOk(t, p) && CommitError(t, p, blobBytes).None?
    ensures RowOk(p.key, CommittedRow(p))
    ensures Lookup(t, p.key) == p.current && p.generation == GenerationOf(p.current) + 1
  {
    TokenNamesGeneration(p.generation, p.hex);
    TokenDeterminesRow(t, p.key, p.current);
  }

  function DeletedRow(row: Row, hex: string): Row {
    Row(row.generation + 1, IssueRevision(row.generation + 1, hex), true, None)
  }

  lemma DeletedRowOk(key: Key, row: Row, hex: string)
    requires RowOk(key, row)
    ensures RowOk(key, DeletedRow(row, hex))
  {
    TokenNamesGeneration(row.generation + 1, hex);
  }

  /** The one row a step may write. */
  lemma TableAfter(s: System, step: Step)
    ensures Next(s, step).0.table ==
      if step.Commit? && Next(s, step).1.Wrote? then s.table[s.pending[step.call].key := CommittedRow(s.pending[step.call])]
      else if step.Delete? && Next(s, step).1.Deleted? then s.table[step.key := DeletedRow(s.table[step.key], step.hex)]
      else s.table
  {
  }

  lemma CommitKeepsTableOk(t: Table, p: Pending, blobBytes: Option<nat>)
    requires TableOk(t) && p.Sealing? && PendingOk(t, p) && CommitError(t, p, blobBytes).None?
    ensures TableOk(t[p.key := CommittedRow(p)])
    ensures forall key :: Advances(Lookup(t, key), Lookup(t[p.key := CommittedRow(p)], key))
  {
    CommittedRowOk(t, p, blobBytes);
    UpdateKeepsTableOk(t, p.key, CommittedRow(p));
  }

  lemma DeleteKeepsTableOk(t: Table, key: Key, hex: string)
    requires TableOk(t) && key in t
    ensures TableOk(t[key := DeletedRow(t[key], hex)])
    ensures forall k :: Advances(Lookup(t, k), Lookup(t[key := DeletedRow(t[key], hex)], k))
  {
    DeletedRowOk(key, t[key], hex);
    UpdateKeepsTableOk(t, key, DeletedRow(t[key], hex));
  }

  lemma NextKeepsTableOk(s: System, step: Step)
    requires Inv(s)
    ensures TableOk(Next(s, step).0.table)
    ensures forall key :: Advances(Lookup(s.table, key), Lookup(Next(s, step).0.table, key))
  {
    TableAfter(s, step);
    if step.Commit? && Next(s, step).1.Wrote? {
      CommitKeepsTableOk(s.table, s.pending[step.call], step.blobBytes);
    } else if step.Delete? && Next(s, step).1.Deleted? {
      DeleteKeepsTableOk(s.table, step.key, step.hex);
    }
  }

  lemma FinishKeepsPendingOk(t: Table, p: Pending, unsealed: bool, now: Option<Instant>, hex: string)
    requires TableOk(t) && p.Opening? && PendingOk(t, p)
    requires FinishOpen(t, p, unsealed, now, hex).Proceed?
    ensures PendingOk(t, FinishOpen(t, p, unsealed, now, hex).next)
  {
    if IsActive(p.current) { OpenStoredRow(p.key, p.current); }
  }

  /** What a save remembers stays good while its key's row advances. */
  lemma PendingOutlivesWrites(t: Table, t': Table, p: Pending)
    requires PendingOk(t, p) && Advances(Lookup(t, p.key), Lookup(t', p.key))
    ensures PendingOk(t', p)
  {
    AdvancedIsNotOlder(p.current, Lookup(t, p.key), Lookup(t', p.key));
  }

  lemma PendingBegins(s: System, step: Step, call: CallId)
    requires call !in s.pending && call in Next(s, step).0.pending
    ensures step.Begin? && step.call == call && step.input.Ok? && step.expected == Token(Lookup(s.table, step.key))
    ensures Next(s, step).0.pending[call] == Opening(step.key, step.input.value, Lookup(s.table, step.key))
    ensures Next(s, step).0.table == s.table
  {
  }

  lemma PendingGoesOn(s: System, step: Step, call: CallId)
    requires call in s.pending && call in Next(s, step).0.pending
    ensures var p, p' := s.pending[call], Next(s, step).0.pending[call];
      if step.Finish? && step.call == call && p.Opening? then
        FinishOpen(s.table, p, step.unsealed, step.now, step.hex) == Proceed(p') && Next(s, step).0.table == s.table
      else p' == p
  {
  }

  lemma NextKeepsPendingOk(s: System, step: Step, call: CallId)
    requires Inv(s) && call in Next(s, step).0.pending
    requires forall key :: Advances(Lookup(s.table, key), Lookup(Next(s, step).0.table, key))
    ensures PendingOk(Next(s, step).0.table, Next(s, step).0.pending[call])
  {
    if call !in s.pending {
      PendingBegins(s, step, call);
    } else {
      var p := s.pending[call];
      PendingGoesOn(s, step, call);
      if step.Finish? && step.call == call && p.Opening? {
        FinishKeepsPendingOk(s.table, p, step.unsealed, step.now, step.hex);
      } else {
        PendingOutlivesWrites(s.table, Next(s, step).0.table, p);
      }
    }
  }

  lemma NextKeepsInv(s: System, step: Step)
    requires Inv(s)
    ensures Inv(Next(s, step).0)
  {
    NextKeepsTableOk(s, step);
    var s' := Next(s, step).0;
    forall call | call in s'.pending ensures PendingOk(s'.table, s'.pending[call]) {
      NextKeepsPendingOk(s, step, call);
    }
  }

  lemma {:induction false} RunKeepsInv(s: System, steps: seq<Step>, n: nat)
    requires Inv(s) && n <= |steps|
    ensures Inv(After(s, steps, n))
  {
    if n == 0 {
    } else {
      RunKeepsInv(s, steps, n - 1);
      NextKeepsInv(After(s, steps, n - 1), steps[n - 1]);
    }
  }

  // ---- No token returns ---------------------------------------------------

  lemma RowAdvances(s: System, steps: seq<Step>, k: nat, key: Key)
    requires Inv(s) && k < |steps|
    ensures Advances(Lookup(After(s, steps, k).table, key), Lookup(After(s, steps, k + 1).table, key))
  {
    RunKeepsInv(s, steps, k);
    NextKeepsTableOk(After(s, steps, k), steps[k]);
  }

  lemma AdvancedIsNotOlder(first: Option<Row>, before: Option<Row>, after: Option<Row>)
    requires NotOlder(first, before) && Advances(before, after)
    ensures NotOlder(first, after)
  {
  }

  ghost predicate RowNotOlder(s: System, steps: seq<Step>, i: nat, k: nat, key: Key)
    requires i <= |steps| && k <= |steps|
  {
    NotOlder(Lookup(After(s, steps, i).table, key), Lookup(After(s, steps, k).table, key))
  }

  lemma NotOlderThanItself(s: System, steps: seq<Step>, i: nat, key: Key)
    requires i <= |steps|
    ensures RowNotOlder(s, steps, i, i, key)
  {
  }

  lemma StepLeavesNotOlder(s: System, steps: seq<Step>, i: nat, k: nat, key: Key)
    requires Inv(s) && i <= k < |steps| && RowNotOlder(s, steps, i, k, key)
    ensures RowNotOlder(s, steps, i, k + 1, key)
  {
    RowAdvances(s, steps, k, key);
    AdvancedIsNotOlder(Lookup(After(s, steps, i).table, key), Lookup(After(s, steps, k).table, key),
                       Lookup(After(s, steps, k + 1).table, key));
  }

  /** Along a run a row's generation never falls, and a row seen again at the same
      generation is the same row: there is no A-B-A. */
  lemma {:induction false} RowsOnlyAdvance(s: System, steps: seq<Step>, i: nat, k: nat, key: Key)
    requires Inv(s) && i <= k <= |steps|
    ensures RowNotOlder(s, steps, i, k, key)
  {
    NotOlderThanItself(s, steps, i, key);
    for n := i to k
      invariant RowNotOlder(s, steps, i, n, key)
    {
      StepLeavesNotOlder(s, steps, i, n, key);
    }
  }

  lemma DeleteAdvancesGeneration(s: System, steps: seq<Step>, d: nat)
    requires d < |steps| && steps[d].Delete? && ResponseAt(s, steps, d).Deleted?
    ensures GenerationOf(Lookup(After(s, steps, d + 1).table, steps[d].key))
         == GenerationOf(Lookup(After(s, steps, d).table, steps[d].key)) + 1
  {
    TableAfter(After(s, steps, d), steps[d]);
  }

  lemma NewerRowHasAnotherToken(t: Table, key: Key, seen: Option<Row>)
    requires TableOk(t) && RowOptionOk(key, seen) && GenerationOf(seen) < GenerationOf(Lookup(t, key))
    ensures Token(seen) != Token(Lookup(t, key))
  {
    if Token(seen) == Token(Lookup(t, key)) { TokenDeterminesRow(t, key, seen); }
  }

  /** A token current at or before a delete is never current again after it, whatever
      random parts were drawn. */
  lemma DeletedTokensStayDead(s: System, steps: seq<Step>, i: nat, d: nat, k: nat, key: Key)
    requires Inv(s) && i <= d < k <= |steps|
    requires steps[d].Delete? && steps[d].key == key && ResponseAt(s, steps, d).Deleted?
    ensures Token(Lookup(After(s, steps, i).table, key)) != Token(Lookup(After(s, steps, k).table, key))
  {
    RowsOnlyAdvance(s, steps, i, d, key);
    DeleteAdvancesGeneration(s, steps, d);
    RowsOnlyAdvance(s, steps, d + 1, k, key);
    RunKeepsInv(s, steps, k);
    RunKeepsInv(s, steps, i);
    NewerRowHasAnotherToken(After(s, steps, k).table, key, Lookup(After(s, steps, i).table, key));
  }

  /** A committed save was based on the row immediately before its commit, and raised
      that row's generation by exactly one. */
  lemma CommitIsBasedOnPresentRow(s: System, steps: seq<Step>, k: nat)
    requires Inv(s) && k < |steps| && steps[k].Commit? && ResponseAt(s, steps, k).Wrote?
    ensures
      var before := After(s, steps, k);
      var p := before.pending[steps[k].call];
      && p.current == Lookup(before.table, p.key)
      && GenerationOf(Lookup(After(s, steps, k + 1).table, p.key)) == GenerationOf(p.current) + 1
  {
    RunKeepsInv(s, steps, k);
    var before := After(s, steps, k);
    var p := before.pending[steps[k].call];
    TokenDeterminesRow(before.table, p.key, p.current);
  }

  // ---- createdAt ----------------------------------------------------------

  function CreatedAt(row: Option<Row>): Instant
    requires IsActive(row) && row.value.payload.Some?
  {
    row.value.payload.value.record.createdAt
  }

  ghost predicate DeletesKey(s: System, steps: seq<Step>, k: nat, key: Key)
    requires k < |steps|
  {
    steps[k].Delete? && steps[k].key == key && ResponseAt(s, steps, k).Deleted?
  }

  /** The row is active and its record was created at `at`. */
  predicate WasCreatedAt(row: Option<Row>, at: Instant) {
    IsActive(row) && row.value.payload.Some? && CreatedAt(row) == at
  }

  lemma CommitKeepsCreatedAt(t: Table, p: Pending, blobBytes: Option<nat>, at: Instant)
    requires TableOk(t) && p.Sealing? && PendingOk(t, p) && CommitError(t, p, blobBytes).None?
    requires WasCreatedAt(Lookup(t, p.key), at)
    ensures WasCreatedAt(Some(CommittedRow(p)), at)
  {
    TokenDeterminesRow(t, p.key, p.current);
  }

  lemma StepKeepsCreatedAt(s: System, step: Step, key: Key, at: Instant)
    requires Inv(s) && WasCreatedAt(Lookup(s.table, key), at)
    requires !(step.Delete? && step.key == key && Next(s, step).1.Deleted?)
    ensures WasCreatedAt(Lookup(Next(s, step).0.table, key), at)
  {
    TableAfter(s, step);
    if step.Commit? && Next(s, step).1.Wrote? && s.pending[step.call].key == key {
      CommitKeepsCreatedAt(s.table, s.pending[step.call], step.blobBytes, at);
    }
  }

  lemma RunStepKeepsCreatedAt(s: System, steps: seq<Step>, k: nat, key: Key, at: Instant)
    requires Inv(s) && k < |steps| && !DeletesKey(s, steps, k, key)
    requires WasCreatedAt(Lookup(After(s, steps, k).table, key), at)
    ensures WasCreatedAt(Lookup(After(s, steps, k + 1).table, key), at)
  {
    RunKeepsInv(s, steps, k);
    StepKeepsCreatedAt(After(s, steps, k), steps[k], key, at);
  }

  /** `createdAt` is fixed from a record's creation to its next delete. */
  lemma {:induction false} CreatedAtIsFixed(s: System, steps: seq<Step>, i: nat, k: nat, key: Key, at: Instant)
    requires Inv(s) && i <= k <= |steps|
    requires WasCreatedAt(Lookup(After(s, steps, i).table, key), at)
    requires forall j :: i <= j < k ==> !DeletesKey(s, steps, j, key)
    ensures WasCreatedAt(Lookup(After(s, steps, k).table, key), at)
  {
    if i == k {
    } else {
      CreatedAtIsFixed(s, steps, i, k - 1, key, at);
      RunStepKeepsCreatedAt(s, steps, k - 1, key, at);
    }
  }

  // ---- Linearizability ----------------------------------------------------

  /** The sequential store: a map from key to what a reader sees, and operations that
      happen all at once. */
  datatype Entry = Live(record: Record, revision: string, generation: nat)
                 | Tombstone(revision: string, generation: nat)

  type Sequential = map<Key, Entry>

  function EntryToken(m: Sequential, key: Key): string {
    if key in m then m[key].revision else ABSENT_REVISION
  }

  function SaveAtOnce(m: Sequential, key: Key, input: Payload, expected: string, now: Instant, hex: string)
    : (Sequential, Response)
  {
    if expected != EntryToken(m, key) then (m, Refused(RevisionConflict))
    else if key in m && m[key].Live? && m[key].record.payload == input then
      (m, Wrote(Saved(m[key].record, m[key].revision, m[key].generation, true)))
    else
      var generation := if key in m then m[key].generation + 1 else 1;
      var revision := IssueRevision(generation, hex);
      var createdAt := if key in m && m[key].Live? then m[key].record.createdAt else now;
      var record := Record(key.bookId, input, createdAt, now, revision, generation);
      (m[key := Live(record, revision, generation)], Wrote(Saved(record, revision, generation, false)))
  }

  function DeleteAtOnce(m: Sequential, key: Key, expected: string, hex: string): (Sequential, Response) {
    if key !in m then (m, Refused(RecordNotFound))
    else if expected != m[key].revision then (m, Refused(RevisionConflict))
    else
      var generation := m[key].generation + 1;
      (m[key := Tombstone(IssueRevision(generation, hex), generation)],
       Deleted(IssueRevision(generation, hex), generation))
  }

  /** What a reader sees of the table. */
  ghost function View(t: Table): Sequential
    requires TableOk(t)
  {
    map key | key in t :: EntryOf(key, t[key])
  }

  function EntryOf(key: Key, row: Row): Entry
    requires RowOk(key, row)
  {
    if row.deleted then Tombstone(row.revision, row.generation)
    else Live(row.payload.value.record, row.revision, row.generation)
  }

  lemma ViewOfUpdate(t: Table, key: Key, row: Row)
    requires TableOk(t) && RowOk(key, row) && TableOk(t[key := row])
    ensures View(t[key := row]) == View(t)[key := EntryOf(key, row)]
  {
  }

  lemma SavedAtOnce(t: Table, p: Pending)
    requires TableOk(t) && p.Sealing? && PendingOk(t, p) && Lookup(t, p.key) == p.current
    requires RowOk(p.key, CommittedRow(p)) && p.generation == GenerationOf(p.current) + 1
    ensures SaveAtOnce(View(t), p.key, p.input, Token(p.current), p.now, p.hex)
      == (View(t)[p.key := EntryOf(p.key, CommittedRow(p))], Wrote(Saved(p.record, p.revision, p.generation, false)))
  {
  }

  lemma CommitIsAtomicSave(s: System, step: Step)
    requires Inv(s) && step.Commit? && Next(s, step).1.Wrote?
    ensures
      var p := s.pending[step.call];
      Inv(Next(s, step).0)
      && (View(Next(s, step).0.table), Next(s, step).1)
         == SaveAtOnce(View(s.table), p.key, p.input, Token(p.current), p.now, p.hex)
  {
    NextKeepsInv(s, step);
    TableAfter(s, step);
    var p := s.pending[step.call];
    CommittedRowOk(s.table, p, step.blobBytes);
    ViewOfUpdate(s.table, p.key, CommittedRow(p));
    SavedAtOnce(s.table, p);
  }

  lemma DeleteIsAtomic(s: System, step: Step)
    requires Inv(s) && step.Delete? && IsBookId(step.key.bookId)
    ensures Inv(Next(s, step).0)
    ensures (View(Next(s, step).0.table), Next(s, step).1)
            == DeleteAtOnce(View(s.table), step.key, step.expected, step.hex)
  {
    NextKeepsInv(s, step);
    if Next(s, step).1.Deleted? {
      var row := s.table[step.key];
      DeletedRowOk(step.key, row, step.hex);
      ViewOfUpdate(s.table, step.key, DeletedRow(row, step.hex));
    }
  }

  lemma RefusedCommitIsAtomicConflict(s: System, step: Step, now: Instant, hex: string)
    requires Inv(s) && step.Commit? && Next(s, step).1 == Refused(RevisionConflict)
    ensures
      var p := s.pending[step.call];
      (View(s.table), Next(s, step).1) == SaveAtOnce(View(s.table), p.key, p.input, Token(p.current), now, hex)
  {
  }

  /** Step `j` is where the save suspended under `call` before step `k` began, and it
      still holds the row it read there. */
  ghost predicate BeganAt(s: System, steps: seq<Step>, k: nat, call: CallId, j: nat)
    requires k <= |steps|
  {
    && j < k && steps[j].Begin? && steps[j].call == call && steps[j].input.Ok?
    && call in After(s, steps, k).pending
    && var p := After(s, steps, k).pending[call];
       && p.key == steps[j].key && p.input == steps[j].input.value
       && steps[j].expected == Token(p.current)
       && p.current == Lookup(After(s, steps, j).table, p.key)
  }

  lemma PendingKeepsOrigin(s: System, step: Step, call: CallId)
    requires call in s.pending && call in Next(s, step).0.pending
    ensures var p, p' := s.pending[call], Next(s, step).0.pending[call];
      p'.key == p.key && p'.input == p.input && p'.current == p.current
  {
    PendingGoesOn(s, step, call);
  }

  lemma {:induction false} EveryPendingBegan(s: System, steps: seq<Step>, k: nat, call: CallId) returns (j: nat)
    requires s.pending == map[] && k <= |steps|
    requires call in After(s, steps, k).pending
    ensures BeganAt(s, steps, k, call, j)
  {
    var before := After(s, steps, k - 1);
    if call !in before.pending {
      PendingBegins(before, steps[k - 1], call);
      j := k - 1;
    } else {
      j := EveryPendingBegan(s, steps, k - 1, call);
      PendingKeepsOrigin(before, steps[k - 1], call);
    }
  }

  /** The atomic operation a completed call stands for, at the state of step `at`. */
  ghost predicate ActsAtOnce(s: System, steps: seq<Step>, at: nat, key: Key, input: Payload,
                             expected: string, now: Instant, hex: string, response: Response)
    requires Inv(s) && at <= |steps|
  {
    RunKeepsInv(s, steps, at);
    SaveAtOnce(View(After(s, steps, at).table), key, input, expected, now, hex).1 == response
  }

  lemma NoChangeIsAtomicSave(begun: Table, now: Table, p: Pending, unsealed: bool, clock: Option<Instant>, hex: string)
    requires TableOk(begun) && p.Opening? && p.current == Lookup(begun, p.key)
    requires FinishOpen(now, p, unsealed, clock, hex).NoChange?
    ensures SaveAtOnce(View(begun), p.key, p.input, Token(p.current), 0, "")
         == (View(begun), Wrote(FinishOpen(now, p, unsealed, clock, hex).saved))
  {
    if unsealed { OpenStoredRow(p.key, p.current); }
  }

  /** A Finish that answers has found nothing to change, and leaves the table alone. */
  lemma FinishAnswer(s: System, step: Step)
    requires Inv(s) && step.Finish?
    requires Next(s, step).1.Wrote? || Next(s, step).1 == Refused(RevisionConflict)
    ensures step.call in s.pending && s.pending[step.call].Opening?
    ensures
      var p := s.pending[step.call];
      var answer := FinishOpen(s.table, p, step.unsealed, step.now, step.hex);
      answer.NoChange? && Next(s, step).1 == Wrote(answer.saved)
    ensures Next(s, step).0.table == s.table
  {
    var p := s.pending[step.call];
    if step.unsealed { OpenStoredRow(p.key, p.current); }
  }

  /** Linearizability. Between its begin (step `j`) and its answer (step `k`) every save
      that wrote, found nothing to change, or met a conflict has one step at which the
      sequential store would have given that answer; a save that wrote takes effect at
      its commit, and no other step of a save changes what a reader sees. */
  lemma SavesAreLinearizable(s: System, steps: seq<Step>, k: nat) returns (j: nat, at: nat, now: Instant, hex: string)
    requires Inv(s) && s.pending == map[] && k < |steps|
    requires steps[k].Finish? || steps[k].Commit?
    requires ResponseAt(s, steps, k).Wrote? || ResponseAt(s, steps, k) == Refused(RevisionConflict)
    ensures BeganAt(s, steps, k, steps[k].call, j) && j <= at <= k
    ensures ActsAtOnce(s, steps, at, steps[j].key, steps[j].input.value, steps[j].expected, now, hex,
                       ResponseAt(s, steps, k))
    ensures Inv(After(s, steps, k)) && Inv(After(s, steps, k + 1))
    ensures View(After(s, steps, k + 1).table) ==
            if steps[k].Commit?
            then SaveAtOnce(View(After(s, steps, k).table), steps[j].key, steps[j].input.value,
                            steps[j].expected, now, hex).0
            else View(After(s, steps, k).table)
    ensures steps[k].Commit? ==> at == k
  {
    RunKeepsInv(s, steps, k);
    RunKeepsInv(s, steps, k + 1);
    var before := After(s, steps, k);
    if steps[k].Commit? {
      j := EveryPendingBegan(s, steps, k, steps[k].call);
      at, now, hex := LinearizeCommit(s, steps, k, j);
    } else {
      FinishAnswer(before, steps[k]);
      j := EveryPendingBegan(s, steps, k, steps[k].call);
      at, now, hex := LinearizeFinish(s, steps, k, j);
    }
  }

  lemma LinearizeFinish(s: System, steps: seq<Step>, k: nat, j: nat) returns (at: nat, now: Instant, hex: string)
    requires Inv(s) && k < |steps| && steps[k].Finish? && BeganAt(s, steps, k, steps[k].call, j)
    requires ResponseAt(s, steps, k).Wrote? || ResponseAt(s, steps, k) == Refused(RevisionConflict)
    ensures at == j
    ensures ActsAtOnce(s, steps, at, steps[j].key, steps[j].input.value, steps[j].expected, now, hex,
                       ResponseAt(s, steps, k))
  {
    RunKeepsInv(s, steps, k);
    RunKeepsInv(s, steps, j);
    var before, step := After(s, steps, k), steps[k];
    FinishAnswer(before, step);
    at, now, hex := j, 0, "";
    NoChangeIsAtomicSave(After(s, steps, j).table, before.table, before.pending[step.call], step.unsealed, step.now, step.hex);
  }

  lemma LinearizeCommit(s: System, steps: seq<Step>, k: nat, j: nat) returns (at: nat, now: Instant, hex: string)
    requires Inv(s) && k < |steps| && steps[k].Commit? && BeganAt(s, steps, k, steps[k].call, j)
    requires ResponseAt(s, steps, k).Wrote? || ResponseAt(s, steps, k) == Refused(RevisionConflict)
    ensures at == k
    ensures ActsAtOnce(s, steps, at, steps[j].key, steps[j].input.value, steps[j].expected, now, hex,
                       ResponseAt(s, steps, k))
    ensures Inv(After(s, steps, k)) && Inv(After(s, steps, k + 1))
    ensures View(After(s, steps, k + 1).table) ==
            SaveAtOnce(View(After(s, steps, k).table), steps[j].key, steps[j].input.value,
                       steps[j].expected, now, hex).0
  {
    RunKeepsInv(s, steps, k);
    RunKeepsInv(s, steps, k + 1);
    var before := After(s, steps, k);
    var p := before.pending[steps[k].call];
    at := k;
    if ResponseAt(s, steps, k).Wrote? {
      now, hex := p.now, p.hex;
      CommitIsAtomicSave(before, steps[k]);
    } else {
      now, hex := 0, "";
      RefusedCommitIsAtomicConflict(before, steps[k], now, hex);
    }
  }

  /** A begin refused for its token, too, is the sequential answer. */
  lemma RefusedBeginIsAtomicConflict(s: System, step: Step, now: Instant, hex: string)
    requires Inv(s) && step.Begin? && step.input.Ok? && Next(s, step).1 == Refused(RevisionConflict)
    ensures (View(s.table), Next(s, step).1)
         == SaveAtOnce(View(s.table), step.key, step.input.value, step.expected, now, hex)
  {
  }

  // ---- The whole run as a sequential history ------------------------------

  /** What one step of the concurrent run means to the sequential store: a save counts
      when it commits, a delete when it happens, nothing else counts. */
  function SequentialStep(m: Sequential, s: System, step: Step): Sequential {
    if step.Commit? && Next(s, step).1.Wrote? then
      var p := s.pending[step.call];
      SaveAtOnce(m, p.key, p.input, Token(p.current), p.now, p.hex).0
    else if step.Delete? && IsBookId(step.key.bookId) then
      DeleteAtOnce(m, step.key, step.expected, step.hex).0
    else m
  }

  /** The sequential store after replaying, one at a time, the history of `n` steps. */
  function SequentialAfter(m: Sequential, s: System, steps: seq<Step>, n: nat): Sequential
    requires n <= |steps|
  {
    if n == 0 then m
    else SequentialStep(SequentialAfter(m, s, steps, n - 1), After(s, steps, n - 1), steps[n - 1])
  }

  lemma StepRefinesSequentialStep(s: System, step: Step)
    requires Inv(s)
    ensures Inv(Next(s, step).0)
    ensures View(Next(s, step).0.table) == SequentialStep(View(s.table), s, step)
  {
    NextKeepsInv(s, step);
    if step.Commit? && Next(s, step).1.Wrote? {
      CommitIsAtomicSave(s, step);
    } else if step.Delete? && IsBookId(step.key.bookId) {
      DeleteIsAtomic(s, step);
    } else {
      TableAfter(s, step);
    }
  }

  ghost predicate ShowsHistory(s: System, steps: seq<Step>, n: nat)
    requires Inv(s) && n <= |steps|
  {
    RunKeepsInv(s, steps, n);
    View(After(s, steps, n).table) == SequentialAfter(View(s.table), s, steps, n)
  }

  lemma StepShowsHistory(s: System, steps: seq<Step>, n: nat)
    requires Inv(s) && n < |steps| && ShowsHistory(s, steps, n)
    ensures ShowsHistory(s, steps, n + 1)
  {
    RunKeepsInv(s, steps, n);
    StepRefinesSequentialStep(After(s, steps, n), steps[n]);
  }

  /** Whatever the interleaving, the table always shows what the sequential store shows
      after that history. */
  lemma {:induction false} RunRefinesSequentialStore(s: System, steps: seq<Step>, n: nat)
    requires Inv(s) && n <= |steps|
    ensures Inv(After(s, steps, n)) && ShowsHistory(s, steps, n)
  {
    RunKeepsInv(s, steps, n);
    for m := 0 to n
      invariant ShowsHistory(s, steps, m)
    {
      StepShowsHistory(s, steps, m);
    }
  }
}
