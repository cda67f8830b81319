/** Which saves and deletes go through, and what is read afterwards: the promises of
    src/store/feedback-store.js stated by row, clock, sealer and count. */
module ReviewSaves {
  import opened Texts
  import opened Feedback
  import opened Reviews
  import opened ReviewProtocol
  import opened ReviewReads

  /** The reviews an account holds, by what the rows say. */
  function HeldReviews(t: Table, account: string): set<Key> {
    set key | key in t && key.account == account && !t[key].deleted
  }

  predicate HoldsReview(row: Option<Row>) { row.Some? && !row.value.deleted && row.value.payload.Some? }

  function ReviewIn(row: Option<Row>): Record
    requires HoldsReview(row)
  {
    row.value.payload.value.record
  }

  predicate AtLimit(t: Table, account: string) { |HeldReviews(t, account)| >= 20000 }

  // ---- Each stretch of a save --------------------------------------------------

  /** A save suspends exactly under a valid id, a valid input and the token of the present row. */
  lemma BeginsExactly(s: System, call: CallId, key: Key, input: Result<Payload, FeedbackError>, expected: string)
    requires call !in s.pending
    ensures var (s', response), row := Next(s, Begin(call, key, input, expected)), Lookup(s.table, key);
      && s'.table == s.table
      && (response == Suspended <==>
            IsBookId(key.bookId) && input.Ok? && expected == if row.Some? then row.value.revision else "rev-0-absent")
      && (response != Suspended ==> s' == s)
      && (response != Suspended ==> response == Refused(
            if !IsBookId(key.bookId) then InvalidBookId else if input.Err? then input.error else RevisionConflict))
  {
  }

  /** Between its awaits a save is refused by a failing sealer over a review it edits, at the
      limit if it creates one, or by a clock it cannot read; and by nothing else. */
  lemma FinishesExactly(t: Table, p: Pending, unsealed: bool, now: Option<Instant>, hex: string)
    requires p.Opening? && RowOptionOk(p.key, p.current)
    ensures
      var answer, edits := FinishOpen(t, p, unsealed, now, hex), HoldsReview(p.current);
      var unreadable, full := edits && !unsealed, !edits && AtLimit(t, p.key.account);
      var same := edits && unsealed && ReviewIn(p.current).payload == p.input;
      && (answer == Failed(SealerFailure) <==> unreadable)
      && (answer == Failed(AggregateLimitExceeded) <==> full)
      && (answer.NoChange? <==> same)
      && (answer == Failed(InvalidTimestamp) <==> !unreadable && !full && !same && now.None?)
      && (answer.Proceed? <==> !unreadable && !full && !same && now.Some?)
  {
    OpenStoredRow(p.key, p.current);
    assert HeldReviews(t, p.key.account) == ActiveKeys(t, p.key.account);
  }

  /** A sealed save writes exactly if its blob has an accepted size and the row has the token
      it was based on. */
  lemma CommitsExactly(s: System, call: CallId, blobBytes: Option<nat>)
    requires call in s.pending && s.pending[call].Sealing?
    ensures
      var (s', response), p := Next(s, Commit(call, blobBytes)), s.pending[call];
      var row := Lookup(s.table, p.key);
      var current := (if row.Some? then row.value.revision else "rev-0-absent")
                  == (if p.current.Some? then p.current.value.revision else "rev-0-absent");
      && s'.pending == Without(s.pending, call)
      && (response.Wrote? <==> blobBytes.Some? && 0 < blobBytes.value <= 65536 && current)
      && (!response.Wrote? ==> s'.table == s.table)
      && (!response.Wrote? ==> response == Refused(
            if blobBytes.None? then SealerFailure
            else if blobBytes.value == 0 || blobBytes.value > 65536 then AggregateLimitExceeded
            else RevisionConflict))
  {
  }

  // ---- A save with nobody in its way ---------------------------------------------

  /** The generation, the token and the record of an undisturbed save. */
  function NextGeneration(row: Option<Row>): nat { if row.Some? then row.value.generation + 1 else 1 }

  function NextToken(row: Option<Row>, hex: string): string { "rev-" + Decimal(NextGeneration(row)) + "-" + hex }

  function NextRecord(key: Key, row: Option<Row>, input: Payload, now: Instant, hex: string): Record {
    Record(key.bookId, input, if HoldsReview(row) then ReviewIn(row).createdAt else now, now,
           NextToken(row, hex), NextGeneration(row))
  }

  /** Nothing but the row of `key` differs. */
  ghost predicate OnlyRow(t: Table, t': Table, key: Key) { forall k :: k != key ==> Lookup(t', k) == Lookup(t, k) }

  /** What one save, run to its end under the present token with a sealer and a clock that
      work, answers and leaves behind. */
  ghost predicate SavesUndisturbed(s: System, s': System, response: Response, key: Key, input: Payload, now: Instant, hex: string) {
    var row := Lookup(s.table, key);
    && s'.pending == s.pending && OnlyRow(s.table, s'.table, key)
    && if HoldsReview(row) && ReviewIn(row).payload == input then
         s'.table == s.table && response == Wrote(Saved(ReviewIn(row), row.value.revision, row.value.generation, true))
       else if !HoldsReview(row) && AtLimit(s.table, key.account) then
         s'.table == s.table && response == Refused(AggregateLimitExceeded)
       else
         var record := NextRecord(key, row, input, now, hex);
         && response == Wrote(Saved(record, NextToken(row, hex), NextGeneration(row), false))
         && Get(s'.table, key, true)
              == Ok(Shown(key.bookId, Some(record), NextToken(row, hex), NextGeneration(row), false))
  }

  function SaveSteps(s: System, call: CallId, key: Key, input: Payload, now: Instant, hex: string, blobBytes: nat): seq<Step> {
    [Begin(call, key, Ok(input), Token(Lookup(s.table, key))), Finish(call, true, Some(now), hex), Commit(call, Some(blobBytes))]
  }

  /** The answer of the save: that of the step that ended it. */
  function SaveAnswer(s: System, call: CallId, key: Key, input: Payload, now: Instant, hex: string, blobBytes: nat): Response {
    var steps := SaveSteps(s, call, key, input, now, hex, blobBytes);
    var finished := ResponseAt(s, steps, 1);
    if finished.Suspended? then ResponseAt(s, steps, 2) else finished
  }

  lemma FinishOfOpening(begun: System, call: CallId, p: Pending, now: Instant, hex: string)
    requires call in begun.pending && begun.pending[call] == p && p.Opening? && RowOptionOk(p.key, p.current)
    ensures
      var (after, response), row := Next(begun, Finish(call, true, Some(now), hex)), p.current;
      if HoldsReview(row) && ReviewIn(row).payload == p.input then
        && after == begun.(pending := Without(begun.pending, call))
        && response == Wrote(Saved(ReviewIn(row), row.value.revision, row.value.generation, true))
      else if !HoldsReview(row) && AtLimit(begun.table, p.key.account) then
        after == begun.(pending := Without(begun.pending, call)) && response == Refused(AggregateLimitExceeded)
      else
        && response == Suspended
        && after == begun.(pending := begun.pending[call := Sealing(p.key, p.input, row, now, hex, NextToken(row, hex),
             NextGeneration(row), NextRecord(p.key, row, p.input, now, hex))])
  {
    FinishesExactly(begun.table, p, true, Some(now), hex);
    OpenStoredRow(p.key, p.current);
  }

  lemma EndsEarly(s: System, begun: System, call: CallId, p: Pending)
    requires call !in s.pending && begun == s.(pending := s.pending[call := p])
    ensures begun.(pending := Without(begun.pending, call)) == s
    ensures forall blob :: Next(s, Commit(call, blob)).0 == s
  {
    assert Without(begun.pending, call) == s.pending;
  }

  lemma CommitOfSealing(s: System, call: CallId, p: Pending, blobBytes: nat)
    requires call !in s.pending && p.Sealing? && p.current == Lookup(s.table, p.key) && IsBookId(p.key.bookId)
    requires 0 < blobBytes <= 65536 && p.generation > 0
    ensures
      var (after, response) := Next(s.(pending := s.pending[call := p]), Commit(call, Some(blobBytes)));
      && after.pending == s.pending && OnlyRow(s.table, after.table, p.key)
      && response == Wrote(Saved(p.record, p.revision, p.generation, false))
      && Get(after.table, p.key, true) == Ok(Shown(p.key.bookId, Some(p.record), p.revision, p.generation, false))
  {
    assert Without(s.pending[call := p], call) == s.pending;
  }

  /** What the last two steps of a save make of its first. */
  lemma SaveOutcome(s: System, begun: System, call: CallId, p: Pending, now: Instant, hex: string, blobBytes: nat)
    requires call !in s.pending && begun == s.(pending := s.pending[call := p]) && p.Opening?
    requires p.current == Lookup(s.table, p.key) && RowOptionOk(p.key, p.current) && IsBookId(p.key.bookId)
    requires 0 < blobBytes <= 65536
    ensures
      var (finished, answer) := Next(begun, Finish(call, true, Some(now), hex));
      var (after, committed) := Next(finished, Commit(call, Some(blobBytes)));
      SavesUndisturbed(s, after, if answer.Suspended? then committed else answer, p.key, p.input, now, hex)
  {
    var row := p.current;
    FinishOfOpening(begun, call, p, now, hex);
    if (HoldsReview(row) && ReviewIn(row).payload == p.input) || (!HoldsReview(row) && AtLimit(s.table, p.key.account)) {
      EndsEarly(s, begun, call, p);
    } else {
      var sealing := Sealing(p.key, p.input, row, now, hex, NextToken(row, hex), NextGeneration(row),
                             NextRecord(p.key, row, p.input, now, hex));
      assert begun.pending[call := sealing] == s.pending[call := sealing];
      CommitOfSealing(s, call, sealing, blobBytes);
    }
  }

  lemma RunOfSave(s: System, begun: System, call: CallId, key: Key, input: Payload, now: Instant, hex: string, blobBytes: nat)
    requires begun == Next(s, Begin(call, key, Ok(input), Token(Lookup(s.table, key)))).0
    ensures
      var steps := SaveSteps(s, call, key, input, now, hex, blobBytes);
      var (finished, answer) := Next(begun, steps[1]);
      var (after, committed) := Next(finished, steps[2]);
      && After(s, steps, 3) == after
      && SaveAnswer(s, call, key, input, now, hex, blobBytes) == if answer.Suspended? then committed else answer
  {
    var steps := SaveSteps(s, call, key, input, now, hex, blobBytes);
    assert After(s, steps, 1) == Next(s, steps[0]).0;
    assert After(s, steps, 2) == Next(begun, steps[1]).0;
  }

  /** From every reachable state: an edit goes through, a first save goes through below the
      limit, and the review read afterwards is the one saved. */
  lemma UndisturbedSaveGoesThrough(s: System, call: CallId, key: Key, input: Payload, now: Instant, hex: string, blobBytes: nat)
    requires Inv(s) && call !in s.pending && IsBookId(key.bookId) && 0 < blobBytes <= 65536
    ensures SavesUndisturbed(s, After(s, SaveSteps(s, call, key, input, now, hex, blobBytes), 3),
                             SaveAnswer(s, call, key, input, now, hex, blobBytes), key, input, now, hex)
  {
    var row := Lookup(s.table, key);
    var p := Opening(key, input, row);
    var begun := s.(pending := s.pending[call := p]);
    assert RowOptionOk(key, row);
    assert Next(s, Begin(call, key, Ok(input), Token(row))).0 == begun;
    RunOfSave(s, begun, call, key, input, now, hex, blobBytes);
    SaveOutcome(s, begun, call, p, now, hex, blobBytes);
  }

  // ---- Deletes -----------------------------------------------------------------------

  /** A delete goes through exactly under a valid id and the token of a row that exists; what is
      read afterwards is the tombstone under the next token, and nothing else changes. */
  lemma DeletesExactly(s: System, key: Key, expected: string, hex: string)
    ensures
      var (s', response), row := Next(s, Delete(key, expected, hex)), Lookup(s.table, key);
      && s'.pending == s.pending && OnlyRow(s.table, s'.table, key)
      && (response.Deleted? <==> IsBookId(key.bookId) && row.Some? && expected == row.value.revision)
      && (!response.Deleted? ==> s'.table == s.table)
      && (!response.Deleted? ==> response == Refused(
            if !IsBookId(key.bookId) then InvalidBookId else if row.None? then RecordNotFound else RevisionConflict))
      && (response.Deleted? ==>
            && response == Deleted(NextToken(row, hex), NextGeneration(row))
            && Get(s'.table, key, true) == Ok(Shown(key.bookId, None, NextToken(row, hex), NextGeneration(row), true)))
  {
  }
}
