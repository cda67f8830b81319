/** The record limit under interleaving. `save` reads the live count before it suspends
    for sealing, so the limit is passed exactly by a first save that commits when the account
    already holds `MAX_RECORDS_PER_ACCOUNT` records; with k first saves overlapping there it
    is passed by at most k - 1, and k of them can reach that. */
module ReviewLimit {
  import opened Texts
  import opened Feedback
  import opened Reviews
  import opened ReviewProtocol

  predicate Creates(p: Pending, account: string) {
    p.Sealing? && p.key.account == account && !IsActive(p.current)
  }

  /** The first saves of an account that have passed the limit check and not committed. */
  function Creating(s: System, account: string): set<CallId> {
    set call | call in s.pending && Creates(s.pending[call], account)
  }

  function Charge(s: System, account: string): nat {
    |ActiveKeys(s.table, account)| + |Creating(s, account)|
  }

  lemma CommitActiveKeys(t: Table, p: Pending, account: string)
    requires p.Sealing? && p.current == Lookup(t, p.key)
    ensures
      var active' := ActiveKeys(t[p.key := CommittedRow(p)], account);
      && |active'| == |ActiveKeys(t, account)| + (if Creates(p, account) then 1 else 0)
      && (!Creates(p, account) ==> active' == ActiveKeys(t, account))
  {
    var active, active' := ActiveKeys(t, account), ActiveKeys(t[p.key := CommittedRow(p)], account);
    if Creates(p, account) {
      assert p.key !in active && active' == active + {p.key};
    } else {
      assert p.key.account == account ==> p.key in active;
      assert active' == active;
    }
  }

  lemma CommitKeepsCharge(s: System, step: Step, account: string)
    requires Inv(s) && step.Commit?
    ensures Charge(Next(s, step).0, account) <= Charge(s, account)
  {
    var s' := Next(s, step).0;
    if step.call in s.pending && s.pending[step.call].Sealing? {
      var p := s.pending[step.call];
      assert Creating(s', account) == Creating(s, account) - {step.call};
      if CommitError(s.table, p, step.blobBytes).None? {
        CommittedRowOk(s.table, p, step.blobBytes);
        CommitActiveKeys(s.table, p, account);
        assert Creates(p, account) ==> step.call in Creating(s, account);
      }
    }
  }

  /** From at most the limit, a step passes it exactly when it commits a first save of an
      account that holds the limit already. */
  lemma LimitIsPassedExactly(s: System, step: Step, account: string)
    requires Inv(s) && |ActiveKeys(s.table, account)| <= MAX_RECORDS_PER_ACCOUNT
    ensures var (s', response) := Next(s, step);
      |ActiveKeys(s'.table, account)| > MAX_RECORDS_PER_ACCOUNT <==>
        && step.Commit? && response.Wrote?
        && Creates(s.pending[step.call], account)
        && |ActiveKeys(s.table, account)| == MAX_RECORDS_PER_ACCOUNT
  {
    match step
    case Begin(_, _, _, _) =>
    case Finish(_, _, _, _) => FinishKeepsTable(s, step);
    case Commit(call, blobBytes) =>
      if Next(s, step).1.Wrote? {
        CommittedRowOk(s.table, s.pending[call], blobBytes);
        CommitActiveKeys(s.table, s.pending[call], account);
      }
    case Delete(_, _, _) => DeleteAddsNoRecord(s, step, account);
  }

  lemma DeleteAddsNoRecord(s: System, step: Step, account: string)
    requires step.Delete?
    ensures |ActiveKeys(Next(s, step).0.table, account)| <= |ActiveKeys(s.table, account)|
  {
    assert ActiveKeys(Next(s, step).0.table, account) <= ActiveKeys(s.table, account);
    SubsetSize(ActiveKeys(Next(s, step).0.table, account), ActiveKeys(s.table, account));
  }

  lemma DeleteKeepsCharge(s: System, step: Step, account: string)
    requires step.Delete?
    ensures Charge(Next(s, step).0, account) <= Charge(s, account)
  {
    var s' := Next(s, step).0;
    assert Creating(s', account) == Creating(s, account);
    DeleteAddsNoRecord(s, step, account);
  }

  lemma {:induction false} SubsetSize<T>(a: set<T>, b: set<T>)
    requires a <= b
    ensures |a| <= |b|
  {
    if a == {} {
    } else {
      var x :| x in a;
      SubsetSize(a - {x}, b - {x});
    }
  }

  lemma BeginKeepsCharge(s: System, step: Step, account: string)
    requires step.Begin?
    ensures Charge(Next(s, step).0, account) == Charge(s, account)
  {
    assert Creating(Next(s, step).0, account) == Creating(s, account);
  }

  /** A save that goes on to seal without being a first save leaves the count alone; a first
      save was admitted below the limit. */
  lemma FinishAdmits(t: Table, p: Pending, unsealed: bool, now: Option<Instant>, hex: string, account: string)
    requires TableOk(t) && p.Opening? && PendingOk(t, p) && FinishOpen(t, p, unsealed, now, hex).Proceed?
    requires Creates(FinishOpen(t, p, unsealed, now, hex).next, account)
    ensures |ActiveKeys(t, account)| < MAX_RECORDS_PER_ACCOUNT
  {
    if unsealed { OpenStoredRow(p.key, p.current); }
  }

  lemma FinishKeepsCharge(s: System, step: Step, account: string, overlap: nat)
    requires Inv(s) && step.Finish? && overlap > 0
    requires |Creating(Next(s, step).0, account)| <= overlap
    requires Charge(s, account) <= MAX_RECORDS_PER_ACCOUNT - 1 + overlap
    ensures Charge(Next(s, step).0, account) <= MAX_RECORDS_PER_ACCOUNT - 1 + overlap
  {
    var s' := Next(s, step).0;
    FinishKeepsTable(s, step);
    if step.call in Creating(s', account) && step.call !in Creating(s, account) {
      var p := s.pending[step.call];
      FinishAdmits(s.table, p, step.unsealed, step.now, step.hex, account);
    } else {
      FinishAddsNoOther(s, step, account);
      SubsetSize(Creating(s', account), Creating(s, account));
    }
  }

  lemma FinishKeepsTable(s: System, step: Step)
    requires step.Finish?
    ensures Next(s, step).0.table == s.table
  {
  }

  lemma FinishAddsNoOther(s: System, step: Step, account: string)
    requires step.Finish?
    requires step.call in Creating(Next(s, step).0, account) ==> step.call in Creating(s, account)
    ensures Creating(Next(s, step).0, account) <= Creating(s, account)
  {
  }

  /** No more records and no more first saves than the limits allow. */
  ghost predicate Within(s: System, account: string, overlap: nat) {
    Charge(s, account) <= MAX_RECORDS_PER_ACCOUNT - 1 + overlap
  }

  ghost predicate OverlapAtMost(s: System, account: string, overlap: nat) { |Creating(s, account)| <= overlap }

  lemma NothingPending(s: System, account: string, overlap: nat)
    requires s.pending == map[] && overlap > 0 && |ActiveKeys(s.table, account)| <= MAX_RECORDS_PER_ACCOUNT
    ensures Within(s, account, overlap)
  {
    assert Creating(s, account) == {};
  }

  lemma StepKeepsCharge(s: System, step: Step, account: string, overlap: nat)
    requires Inv(s) && overlap > 0 && OverlapAtMost(Next(s, step).0, account, overlap) && Within(s, account, overlap)
    ensures Within(Next(s, step).0, account, overlap)
  {
    match step
    case Begin(_, _, _, _) => BeginKeepsCharge(s, step, account);
    case Finish(_, _, _, _) => FinishKeepsCharge(s, step, account, overlap);
    case Commit(_, _) => CommitKeepsCharge(s, step, account);
    case Delete(_, _, _) => DeleteKeepsCharge(s, step, account);
  }

  lemma RunStepKeepsCharge(s: System, steps: seq<Step>, n: nat, account: string, overlap: nat)
    requires Inv(s) && n < |steps| && overlap > 0 && Within(After(s, steps, n), account, overlap)
    requires OverlapAtMost(After(s, steps, n + 1), account, overlap)
    ensures Within(After(s, steps, n + 1), account, overlap)
  {
    RunKeepsInv(s, steps, n);
    StepKeepsCharge(After(s, steps, n), steps[n], account, overlap);
  }

  ghost predicate OverlapThrough(s: System, steps: seq<Step>, n: nat, account: string, overlap: nat)
    requires n <= |steps|
  {
    forall k :: 0 <= k <= n ==> OverlapAtMost(After(s, steps, k), account, overlap)
  }

  lemma RunKeepsCharge(s: System, steps: seq<Step>, n: nat, account: string, overlap: nat)
    requires Inv(s) && n <= |steps| && overlap > 0 && Within(s, account, overlap)
    requires OverlapThrough(s, steps, n, account, overlap)
    ensures Within(After(s, steps, n), account, overlap)
  {
    for m := 0 to n
      invariant Within(After(s, steps, m), account, overlap)
    {
      assert OverlapAtMost(After(s, steps, m + 1), account, overlap);
      RunStepKeepsCharge(s, steps, m, account, overlap);
    }
  }

  /** If never more than `overlap` first saves of an account are between their limit check
      and their commit, the account never holds more than the limit plus `overlap - 1`
      records; with one at a time it never exceeds the limit. */
  lemma LimitHoldsUpToOverlap(s: System, steps: seq<Step>, n: nat, account: string, overlap: nat)
    requires Inv(s) && s.pending == map[] && n <= |steps| && overlap > 0
    requires |ActiveKeys(s.table, account)| <= MAX_RECORDS_PER_ACCOUNT
    requires OverlapThrough(s, steps, n, account, overlap)
    ensures |ActiveKeys(After(s, steps, n).table, account)| <= MAX_RECORDS_PER_ACCOUNT - 1 + overlap
  {
    NothingPending(s, account, overlap);
    RunKeepsCharge(s, steps, n, account, overlap);
  }

  /** A first save that has passed the limit check. */
  function FirstSave(key: Key, input: Payload): Pending {
    var revision := IssueRevision(1, "");
    Sealing(key, input, None, 0, "", revision, 1, BuildRecord(key, input, None, 0, revision, 1))
  }

  /** The steps of first saves of `keys` that overlap: all begin, then all pass the limit
      check, then all commit. */
  function OverlappingSaves(keys: seq<Key>, input: Payload): seq<Step> {
    seq(3 * |keys|, n requires 0 <= n < 3 * |keys| => OverlappingStep(keys, input, n))
  }

  function OverlappingStep(keys: seq<Key>, input: Payload, n: nat): Step
    requires n < 3 * |keys|
  {
    var k := |keys|;
    if n < k then Begin(n, keys[n], Ok(input), ABSENT_REVISION)
    else if n < 2 * k then Finish(n - k, true, Some(0), "")
    else Commit(n - 2 * k, Some(1))
  }

  /** The table after the first `n` commits. */
  function Filled(t: Table, keys: seq<Key>, input: Payload, n: nat): Table
    requires n <= |keys|
  {
    if n == 0 then t else Filled(t, keys, input, n - 1)[keys[n - 1] := CommittedRow(FirstSave(keys[n - 1], input))]
  }

  /** Where those steps lead, after `n` of them. */
  function Stage(t: Table, keys: seq<Key>, input: Payload, n: nat): System
    requires n <= 3 * |keys|
  {
    var k := |keys|;
    var done := if n < 2 * k then 0 else n - 2 * k;
    System(Filled(t, keys, input, done),
           map c: CallId | done <= c < n && c < k :: if c < n - k then FirstSave(keys[c], input) else Opening(keys[c], input, None))
  }

  ghost predicate AreNew(t: Table, keys: seq<Key>, account: string) {
    && (forall i :: 0 <= i < |keys| ==> keys[i].account == account && keys[i] !in t && IsBookId(keys[i].bookId))
    && forall i, j :: 0 <= i < j < |keys| ==> keys[i] != keys[j]
  }

  lemma {:induction false} FilledHolds(t: Table, keys: seq<Key>, input: Payload, account: string, n: nat)
    requires AreNew(t, keys, account) && n <= |keys|
    ensures |ActiveKeys(Filled(t, keys, input, n), account)| == |ActiveKeys(t, account)| + n
    ensures forall i :: n <= i < |keys| ==> keys[i] !in Filled(t, keys, input, n)
  {
    if n == 0 {
    } else {
      FilledHolds(t, keys, input, account, n - 1);
      CommitActiveKeys(Filled(t, keys, input, n - 1), FirstSave(keys[n - 1], input), account);
    }
  }

  lemma StageBegins(t: Table, keys: seq<Key>, input: Payload, account: string, n: nat)
    requires AreNew(t, keys, account) && n < |keys|
    ensures Next(Stage(t, keys, input, n), OverlappingStep(keys, input, n)).0 == Stage(t, keys, input, n + 1)
  {
    assert keys[n] !in t;
    assert Stage(t, keys, input, n + 1).pending == Stage(t, keys, input, n).pending[n := Opening(keys[n], input, None)];
  }

  lemma StagePassesCheck(t: Table, keys: seq<Key>, input: Payload, account: string, n: nat)
    requires AreNew(t, keys, account) && |keys| <= n < 2 * |keys|
    requires |ActiveKeys(t, account)| < MAX_RECORDS_PER_ACCOUNT
    ensures Next(Stage(t, keys, input, n), OverlappingStep(keys, input, n)).0 == Stage(t, keys, input, n + 1)
  {
    var c := n - |keys|;
    assert keys[c].account == account;
    assert Stage(t, keys, input, n).pending[c] == Opening(keys[c], input, None);
    assert Stage(t, keys, input, n + 1).pending == Stage(t, keys, input, n).pending[c := FirstSave(keys[c], input)];
  }

  lemma FirstSaveCommitted(s: System, call: CallId, key: Key, input: Payload)
    requires call in s.pending && s.pending[call] == FirstSave(key, input) && key !in s.table
    ensures Next(s, Commit(call, Some(1))).0
         == System(s.table[key := CommittedRow(FirstSave(key, input))], Without(s.pending, call))
  {
  }

  lemma StageDrains(t: Table, keys: seq<Key>, input: Payload, n: nat)
    requires 2 * |keys| <= n < 3 * |keys|
    ensures var c, s := n - 2 * |keys|, Stage(t, keys, input, n);
      && c in s.pending && s.pending[c] == FirstSave(keys[c], input)
      && Stage(t, keys, input, n + 1)
         == System(s.table[keys[c] := CommittedRow(FirstSave(keys[c], input))], Without(s.pending, c))
  {
    var c, s := n - 2 * |keys|, Stage(t, keys, input, n);
    assert Stage(t, keys, input, n + 1).pending == Without(s.pending, c);
  }

  lemma StageCommits(t: Table, keys: seq<Key>, input: Payload, account: string, n: nat)
    requires AreNew(t, keys, account) && 2 * |keys| <= n < 3 * |keys|
    ensures Next(Stage(t, keys, input, n), OverlappingStep(keys, input, n)).0 == Stage(t, keys, input, n + 1)
  {
    var c, s := n - 2 * |keys|, Stage(t, keys, input, n);
    StageDrains(t, keys, input, n);
    assert keys[c] !in s.table by { FilledHolds(t, keys, input, account, c); }
    FirstSaveCommitted(s, c, keys[c], input);
  }

  lemma StageStep(t: Table, keys: seq<Key>, input: Payload, account: string, n: nat)
    requires AreNew(t, keys, account) && n < 3 * |keys| && |ActiveKeys(t, account)| < MAX_RECORDS_PER_ACCOUNT
    ensures Next(Stage(t, keys, input, n), OverlappingStep(keys, input, n)).0 == Stage(t, keys, input, n + 1)
  {
    if n < |keys| { StageBegins(t, keys, input, account, n); }
    else if n < 2 * |keys| { StagePassesCheck(t, keys, input, account, n); }
    else { StageCommits(t, keys, input, account, n); }
  }

  lemma AfterStep(s: System, steps: seq<Step>, n: nat)
    requires 0 < n <= |steps|
    ensures After(s, steps, n) == Next(After(s, steps, n - 1), steps[n - 1]).0
  {
  }

  ghost predicate IsAtStage(t: Table, keys: seq<Key>, input: Payload, n: nat)
    requires n <= 3 * |keys|
  {
    After(System(t, map[]), OverlappingSaves(keys, input), n) == Stage(t, keys, input, n)
  }

  lemma NextIsAtStage(t: Table, keys: seq<Key>, input: Payload, account: string, n: nat)
    requires AreNew(t, keys, account) && n < 3 * |keys| && |ActiveKeys(t, account)| < MAX_RECORDS_PER_ACCOUNT
    requires IsAtStage(t, keys, input, n)
    ensures IsAtStage(t, keys, input, n + 1)
  {
    AfterStep(System(t, map[]), OverlappingSaves(keys, input), n + 1);
    StageStep(t, keys, input, account, n);
  }

  lemma {:induction false} RunReachesStage(t: Table, keys: seq<Key>, input: Payload, account: string, n: nat)
    requires AreNew(t, keys, account) && n <= 3 * |keys| && |ActiveKeys(t, account)| < MAX_RECORDS_PER_ACCOUNT
    ensures IsAtStage(t, keys, input, n)
  {
    if n == 0 {
      assert Stage(t, keys, input, 0).pending == map[];
    } else {
      RunReachesStage(t, keys, input, account, n - 1);
      NextIsAtStage(t, keys, input, account, n - 1);
    }
  }

  function Calls(k: nat): set<CallId> { if k == 0 then {} else Calls(k - 1) + {k - 1} }

  lemma {:induction false} CallsCount(k: nat)
    ensures |Calls(k)| == k
    ensures forall c: CallId :: c in Calls(k) <==> c < k
  {
    if k == 0 {
    } else {
      CallsCount(k - 1);
    }
  }

  lemma StageOverlap(t: Table, keys: seq<Key>, input: Payload, account: string, n: nat)
    requires n <= 3 * |keys|
    ensures OverlapAtMost(Stage(t, keys, input, n), account, |keys|)
  {
    CallsCount(|keys|);
    SubsetSize(Creating(Stage(t, keys, input, n), account), Calls(|keys|));
  }

  /** The limit itself is not an invariant and the bound above is the best there is: one
      record below the limit, any k first saves that overlap reach the limit plus k - 1. */
  lemma OverlappingFirstSavesPassTheLimit(t: Table, keys: seq<Key>, input: Payload, account: string)
    requires AreNew(t, keys, account) && |ActiveKeys(t, account)| == MAX_RECORDS_PER_ACCOUNT - 1
    ensures var s, steps, k := System(t, map[]), OverlappingSaves(keys, input), |keys|;
      && OverlapThrough(s, steps, |steps|, account, k)
      && |ActiveKeys(After(s, steps, |steps|).table, account)| == MAX_RECORDS_PER_ACCOUNT - 1 + k
  {
    var s, steps, k := System(t, map[]), OverlappingSaves(keys, input), |keys|;
    forall n | 0 <= n <= |steps| ensures OverlapAtMost(After(s, steps, n), account, k) {
      RunReachesStage(t, keys, input, account, n);
      StageOverlap(t, keys, input, account, n);
    }
    RunReachesStage(t, keys, input, account, 3 * k);
    FilledHolds(t, keys, input, account, k);
  }
}
