/** Reading while saves and deletes interleave: `get` and `list` of
    src/store/feedback-store.js. A listing reads the ids once and then each row after an
    await, so its rows may come from different moments of a run. */
module ReviewReads {
  import opened Texts
  import opened Feedback
  import opened Reviews
  import opened ReviewProtocol

  datatype Shown = Shown(bookId: string, record: Option<Record>, revision: string, generation: nat, deleted: bool)

  function Get(t: Table, key: Key, unsealed: bool): Result<Shown, FeedbackError> {
    var row := Lookup(t, key);
    if !IsBookId(key.bookId) then Err(InvalidBookId)
    else if row.None? then Ok(Shown(key.bookId, None, ABSENT_REVISION, 0, false))
    else
      var content := Open(row, key, unsealed);
      if content.Err? then Err(content.error)
      else Ok(Shown(key.bookId, content.value, row.value.revision, row.value.generation, row.value.deleted))
  }

  // ---- Generations count writes ---------------------------------------------

  /** The step writes the key's row. */
  predicate Writes(s: System, step: Step, key: Key) {
    || (step.Commit? && Next(s, step).1.Wrote? && s.pending[step.call].key == key)
    || (step.Delete? && Next(s, step).1.Deleted? && step.key == key)
  }

  function WriteCount(s: System, steps: seq<Step>, i: nat, k: nat, key: Key): nat
    requires i <= k <= |steps|
  {
    if i == k then 0
    else WriteCount(s, steps, i, k - 1, key) + if Writes(After(s, steps, k - 1), steps[k - 1], key) then 1 else 0
  }

  lemma StepCountsWrites(s: System, step: Step, key: Key)
    requires Inv(s)
    ensures GenerationOf(Lookup(Next(s, step).0.table, key))
         == GenerationOf(Lookup(s.table, key)) + if Writes(s, step, key) then 1 else 0
  {
    TableAfter(s, step);
    if step.Commit? && Next(s, step).1.Wrote? {
      CommittedRowOk(s.table, s.pending[step.call], step.blobBytes);
    }
  }

  lemma RunStepCountsWrites(s: System, steps: seq<Step>, i: nat, k: nat, key: Key)
    requires Inv(s) && i < k <= |steps|
    ensures GenerationOf(Lookup(After(s, steps, k).table, key)) - WriteCount(s, steps, i, k, key)
         == GenerationOf(Lookup(After(s, steps, k - 1).table, key)) - WriteCount(s, steps, i, k - 1, key)
  {
    RunKeepsInv(s, steps, k - 1);
    StepCountsWrites(After(s, steps, k - 1), steps[k - 1], key);
  }

  /** Along a run a row's generation counts the accepted writes of its key. */
  lemma {:induction false} GenerationsCountWrites(s: System, steps: seq<Step>, i: nat, k: nat, key: Key)
    requires Inv(s) && i <= k <= |steps|
    ensures GenerationOf(Lookup(After(s, steps, k).table, key))
         == GenerationOf(Lookup(After(s, steps, i).table, key)) + WriteCount(s, steps, i, k, key)
    decreases k
  {
    if i == k {
    } else {
      GenerationsCountWrites(s, steps, i, k - 1, key);
      RunStepCountsWrites(s, steps, i, k, key);
    }
  }

  /** A row is what it was exactly when nothing was written to it in between. */
  lemma RowStaysExactly(s: System, steps: seq<Step>, i: nat, k: nat, key: Key)
    requires Inv(s) && i <= k <= |steps|
    ensures Lookup(After(s, steps, k).table, key) == Lookup(After(s, steps, i).table, key)
       <==> WriteCount(s, steps, i, k, key) == 0
  {
    GenerationsCountWrites(s, steps, i, k, key);
    RowsOnlyAdvance(s, steps, i, k, key);
  }

  // ---- Rows are read under valid ids -----------------------------------------

  ghost predicate IdsOk(s: System) {
    && (forall key :: key in s.table ==> IsBookId(key.bookId))
    && forall call :: call in s.pending ==> IsBookId(s.pending[call].key.bookId)
  }

  lemma NextKeepsIdsOk(s: System, step: Step)
    requires IdsOk(s)
    ensures IdsOk(Next(s, step).0)
  {
    TableAfter(s, step);
  }

  lemma {:induction false} RunKeepsIdsOk(s: System, steps: seq<Step>, n: nat)
    requires IdsOk(s) && n <= |steps|
    ensures IdsOk(After(s, steps, n))
  {
    if n == 0 {
    } else {
      RunKeepsIdsOk(s, steps, n - 1);
      NextKeepsIdsOk(After(s, steps, n - 1), steps[n - 1]);
    }
  }

  /** Once a row exists a read fails only if its sealer does, and shows a record exactly
      when the row is not deleted. */
  lemma GetFailsExactly(t: Table, key: Key, unsealed: bool)
    requires TableOk(t) && key in t && IsBookId(key.bookId)
    ensures Get(t, key, unsealed).Err? <==> !t[key].deleted && !unsealed
    ensures Get(t, key, unsealed).Ok? ==>
      var shown := Get(t, key, unsealed).value;
      && shown.generation == t[key].generation && shown.deleted == t[key].deleted
      && (shown.record.Some? <==> !shown.deleted)
  {
  }

  // ---- A listing ----------------------------------------------------------------

  /** The keys of the account's active rows, in order of their ids. */
  ghost predicate Lists(t: Table, account: string, keys: seq<Key>) {
    && (forall key :: key in keys <==> key in ActiveKeys(t, account))
    && forall i, j :: 0 <= i < j < |keys| ==> Less(keys[i].bookId, keys[j].bookId)
  }

  /** The rows are read one after the other, each at its own moment of the run. */
  ghost predicate InOrder(from: nat, moments: seq<nat>, n: nat) {
    && (forall i :: 0 <= i < |moments| ==> from <= moments[i] <= n)
    && forall i, j :: 0 <= i < j < |moments| ==> moments[i] <= moments[j]
  }

  /** What each read answers, when the sealer does not fail. */
  function Listing(s: System, steps: seq<Step>, keys: seq<Key>, moments: seq<nat>): seq<Result<Shown, FeedbackError>>
    requires |moments| == |keys|
    requires forall i :: 0 <= i < |moments| ==> moments[i] <= |steps|
  {
    seq(|keys|, i requires 0 <= i < |keys| => Get(After(s, steps, moments[i]).table, keys[i], true))
  }

  function AllAt(moment: nat, n: nat): (r: seq<nat>)
    ensures |r| == n && forall i :: 0 <= i < n ==> r[i] == moment
  {
    seq(n, _ => moment)
  }

  /** A listed row is still there when it is read, no older than when it was listed. */
  lemma ListedRowIsRead(s: System, steps: seq<Step>, from: nat, k: nat, key: Key)
    requires Inv(s) && IdsOk(s) && from <= k <= |steps|
    requires IsActive(Lookup(After(s, steps, from).table, key))
    ensures var shown := Get(After(s, steps, k).table, key, true);
      && shown.Ok?
      && shown.value.generation == GenerationOf(Lookup(After(s, steps, from).table, key)) + WriteCount(s, steps, from, k, key)
      && (shown.value.record.Some? <==> !shown.value.deleted)
  {
    RunKeepsInv(s, steps, from);
    RunKeepsInv(s, steps, k);
    RunKeepsIdsOk(s, steps, k);
    GenerationsCountWrites(s, steps, from, k, key);
    GetFailsExactly(After(s, steps, k).table, key, true);
  }

  /** A listing is the account's reviews as they stood when its ids were read exactly when
      no listed row is written before its own read. */
  lemma ListingIsOneMomentExactly(s: System, steps: seq<Step>, from: nat, account: string, keys: seq<Key>, moments: seq<nat>)
    requires Inv(s) && IdsOk(s) && from <= |steps| && |moments| == |keys| && InOrder(from, moments, |steps|)
    requires Lists(After(s, steps, from).table, account, keys)
    ensures Listing(s, steps, keys, moments) == Listing(s, steps, keys, AllAt(from, |keys|))
       <==> forall i :: 0 <= i < |keys| ==> WriteCount(s, steps, from, moments[i], keys[i]) == 0
  {
    var read, listed := Listing(s, steps, keys, moments), Listing(s, steps, keys, AllAt(from, |keys|));
    forall i | 0 <= i < |keys| ensures read[i] == listed[i] <==> WriteCount(s, steps, from, moments[i], keys[i]) == 0 {
      assert keys[i] in ActiveKeys(After(s, steps, from).table, account);
      ListedRowIsRead(s, steps, from, moments[i], keys[i]);
      ListedRowIsRead(s, steps, from, from, keys[i]);
      RowStaysExactly(s, steps, from, moments[i], keys[i]);
    }
  }

  function TwoDeletes(t: Table, a: Key, b: Key): seq<Step>
    requires a in t && b in t
  {
    [Delete(a, t[a].revision, ""), Delete(b, t[b].revision, "")]
  }

  lemma TwoDeletesRun(t: Table, a: Key, b: Key)
    requires a in t && b in t && a != b && IsBookId(a.bookId) && IsBookId(b.bookId)
    ensures var s, steps, t1 := System(t, map[]), TwoDeletes(t, a, b), t[a := DeletedRow(t[a], "")];
      && After(s, steps, 0).table == t && After(s, steps, 1).table == t1
      && After(s, steps, 2).table == t1[b := DeletedRow(t[b], "")]
  {
    var s, steps := System(t, map[]), TwoDeletes(t, a, b);
    assert After(s, steps, 1) == Next(s, steps[0]).0;
  }

  /** Between the reads of two rows both are deleted: the listing shows the first with its
      record and the second as deleted, which the table never held. */
  lemma ListingCanBeTorn(t: Table, a: Key, b: Key, moment: nat)
    requires TableOk(t) && a in t && b in t && a != b && !t[a].deleted && !t[b].deleted
    requires IsBookId(a.bookId) && IsBookId(b.bookId) && moment <= 2
    ensures var s, steps := System(t, map[]), TwoDeletes(t, a, b);
      Listing(s, steps, [a, b], [0, 2]) != Listing(s, steps, [a, b], [moment, moment])
  {
    var s, steps := System(t, map[]), TwoDeletes(t, a, b);
    TwoDeletesRun(t, a, b);
    var torn, whole := Listing(s, steps, [a, b], [0, 2]), Listing(s, steps, [a, b], [moment, moment]);
    assert torn[0] == Get(t, a, true) && torn[1] == Get(After(s, steps, 2).table, b, true);
    GetFailsExactly(t, a, true);
    if moment == 2 {
      assert whole[0] == Get(After(s, steps, 2).table, a, true);
    } else {
      assert whole[1] == Get(After(s, steps, moment).table, b, true);
    }
  }
}
