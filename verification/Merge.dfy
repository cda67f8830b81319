/** The idempotent snapshot merge: `mergeLibrarySnapshot` of src/core/model.js. */
module Merge {
  import opened Texts
  import opened Library

  /** An incoming record. A record the normalizer rejects is only its category. */
  datatype RawEntry =
    | Malformed(category: string)
    | Raw(bookId: string, facts: Facts, sourceObservedAt: Option<Instant>, lastSeenAt: Option<Instant>,
          missingFromSource: Option<bool>)

  datatype Rejection = Rejection(recordIndex: nat, category: string)

  datatype Report = Report(added: seq<string>, updated: seq<string>, same: seq<string>,
                           missingFromSource: seq<string>, rejected: seq<Rejection>)

  datatype MergeResult = MergeResult(entries: seq<Entry>, report: Report)

  /** Where and when the incoming records were observed. */
  datatype Origin = Origin(source: string, observedAt: Instant)

  function Or<T>(o: Option<T>, default: T): T { if o.Some? then o.value else default }

  function Normalize(raw: RawEntry, o: Origin): Entry
    requires raw.Raw?
  {
    Entry(raw.bookId, raw.facts, Provenance(o.source, o.observedAt), Some(o.observedAt),
          Some(Or(raw.sourceObservedAt, o.observedAt)), Some(Or(raw.lastSeenAt, o.observedAt)),
          Or(raw.missingFromSource, false))
  }

  /** The accepted records by id: the first well-formed one of each id. */
  function Accepted(incoming: seq<RawEntry>, o: Origin): map<string, Entry> {
    if incoming == [] then map[]
    else
      var earlier, raw := Accepted(incoming[..|incoming| - 1], o), incoming[|incoming| - 1];
      if raw.Malformed? || raw.bookId in earlier then earlier else earlier[raw.bookId := Normalize(raw, o)]
  }

  function Rejected(incoming: seq<RawEntry>, o: Origin): seq<Rejection> {
    if incoming == [] then []
    else
      var n := |incoming| - 1;
      var raw := incoming[n];
      Rejected(incoming[..n], o) +
        if raw.Malformed? then [Rejection(n, raw.category)]
        else if raw.bookId in Accepted(incoming[..n], o) then [Rejection(n, "duplicate-record")]
        else []
  }

  predicate Unchanged(before: Entry, e: Entry) { before.facts == e.facts && !before.missingFromSource }

  function Refreshed(before: Option<Entry>, e: Entry): Entry {
    if before.Some? && Unchanged(before.value, e) then
      before.value.(lastSyncedAt := e.lastSyncedAt, sourceObservedAt := e.sourceObservedAt, lastSeenAt := e.lastSeenAt)
    else e
  }

  function Dropped(before: Entry, o: Origin): Entry {
    before.(missingFromSource := true, lastSyncedAt := Some(o.observedAt))
  }

  function At<T>(m: map<string, T>, id: string): Option<T> { if id in m then Some(m[id]) else None }

  /** The state a merge leaves, by id. */
  function MergedState(prev: map<string, Entry>, accepted: map<string, Entry>, o: Origin): map<string, Entry> {
    map id | id in accepted.Keys + prev.Keys ::
      if id in accepted then Refreshed(At(prev, id), accepted[id]) else Dropped(prev[id], o)
  }

  function AddedIds(prev: map<string, Entry>, accepted: map<string, Entry>): set<string> { accepted.Keys - prev.Keys }

  function UnchangedIds(prev: map<string, Entry>, accepted: map<string, Entry>): set<string> {
    set id | id in accepted && id in prev && Unchanged(prev[id], accepted[id])
  }

  function UpdatedIds(prev: map<string, Entry>, accepted: map<string, Entry>): set<string> {
    set id | id in accepted && id in prev && !Unchanged(prev[id], accepted[id])
  }

  /** The specification of the merge. */
  function Merging(previous: seq<Entry>, incoming: seq<RawEntry>, o: Origin): MergeResult {
    var prev, accepted := IndexBy(previous, EntryId), Accepted(incoming, o);
    MergeResult(SortedValues(MergedState(prev, accepted, o)),
      Report(SortedIds(AddedIds(prev, accepted)), SortedIds(UpdatedIds(prev, accepted)),
             SortedIds(UnchangedIds(prev, accepted)), SortedIds(prev.Keys - accepted.Keys), Rejected(incoming, o)))
  }

  // ---- The loops that compute it ------------------------------------------

  datatype Progress = Progress(next: map<string, Entry>, added: seq<string>, updated: seq<string>,
                               same: seq<string>, rejected: seq<Rejection>)

  /** The accepted part of the state. */
  function RefreshedAll(prev: map<string, Entry>, accepted: map<string, Entry>): map<string, Entry> {
    map id | id in accepted :: Refreshed(At(prev, id), accepted[id])
  }

  ghost predicate ProgressOf(g: Progress, prev: map<string, Entry>, incoming: seq<RawEntry>, o: Origin) {
    var accepted := Accepted(incoming, o);
    && g.next == RefreshedAll(prev, accepted) && g.rejected == Rejected(incoming, o)
    && NoRepeats(g.added) && AsSet(g.added) == AddedIds(prev, accepted)
    && NoRepeats(g.updated) && AsSet(g.updated) == UpdatedIds(prev, accepted)
    && NoRepeats(g.same) && AsSet(g.same) == UnchangedIds(prev, accepted)
  }

  lemma OneMoreAccepted(prev: map<string, Entry>, accepted: map<string, Entry>, e: Entry)
    requires e.bookId !in accepted
    ensures
      var id, more := e.bookId, accepted[e.bookId := e];
      var same := id in prev && Unchanged(prev[id], e);
      && RefreshedAll(prev, more) == RefreshedAll(prev, accepted)[id := Refreshed(At(prev, id), e)]
      && AddedIds(prev, more) == AddedIds(prev, accepted) + (if id in prev then {} else {id})
      && UnchangedIds(prev, more) == UnchangedIds(prev, accepted) + (if same then {id} else {})
      && UpdatedIds(prev, more) == UpdatedIds(prev, accepted) + (if id in prev && !same then {id} else {})
  {
  }

  method AcceptRecord(g: Progress, prev: map<string, Entry>, ghost earlier: seq<RawEntry>, raw: RawEntry, o: Origin)
    returns (r: Progress)
    requires ProgressOf(g, prev, earlier, o) && raw.Raw? && raw.bookId !in Accepted(earlier, o)
    ensures ProgressOf(r, prev, earlier + [raw], o)
  {
    assert (earlier + [raw])[..|earlier|] == earlier;
    var e := Normalize(raw, o);
    var id := e.bookId;
    OneMoreAccepted(prev, Accepted(earlier, o), e);
    if id in prev && Unchanged(prev[id], e) {
      var before := prev[id].(lastSyncedAt := e.lastSyncedAt, sourceObservedAt := e.sourceObservedAt,
                              lastSeenAt := e.lastSeenAt);
      PushNew(g.same, id);
      r := g.(next := g.next[id := before], same := g.same + [id]);
    } else if id in prev {
      PushNew(g.updated, id);
      r := g.(next := g.next[id := e], updated := g.updated + [id]);
    } else {
      PushNew(g.added, id);
      r := g.(next := g.next[id := e], added := g.added + [id]);
    }
  }

  method MergeIncoming(prev: map<string, Entry>, incoming: seq<RawEntry>, o: Origin) returns (g: Progress)
    ensures ProgressOf(g, prev, incoming, o)
  {
    g := Progress(map[], [], [], [], []);
    for i := 0 to |incoming|
      invariant ProgressOf(g, prev, incoming[..i], o)
    {
      var raw := incoming[i];
      assert incoming[..i + 1] == incoming[..i] + [raw];
      assert incoming[..i + 1][..i] == incoming[..i];
      if raw.Malformed? {
        g := g.(rejected := g.rejected + [Rejection(i, raw.category)]);
      } else if raw.bookId in g.next {
        g := g.(rejected := g.rejected + [Rejection(i, "duplicate-record")]);
      } else {
        g := AcceptRecord(g, prev, incoming[..i], raw, o);
      }
    }
    assert incoming[..|incoming|] == incoming;
  }

  /** The state once the previous books in `done` have been looked at. */
  function FlaggedWith(prev: map<string, Entry>, accepted: map<string, Entry>, o: Origin, done: set<string>)
    : map<string, Entry>
    requires done <= prev.Keys
  {
    map id | id in accepted.Keys + done ::
      if id in accepted then Refreshed(At(prev, id), accepted[id]) else Dropped(prev[id], o)
  }

  lemma FlaggedOneMore(prev: map<string, Entry>, accepted: map<string, Entry>, o: Origin, done: set<string>, id: string)
    requires done <= prev.Keys && id in prev && id !in done
    ensures FlaggedWith(prev, accepted, o, done + {id}) ==
      if id in accepted then FlaggedWith(prev, accepted, o, done)
      else FlaggedWith(prev, accepted, o, done)[id := Dropped(prev[id], o)]
  {
  }

  lemma FlaggedEnds(prev: map<string, Entry>, accepted: map<string, Entry>, o: Origin)
    ensures FlaggedWith(prev, accepted, o, {}) == RefreshedAll(prev, accepted)
    ensures FlaggedWith(prev, accepted, o, prev.Keys) == MergedState(prev, accepted, o)
  {
  }

  method FlagMissing(prev: map<string, Entry>, ghost accepted: map<string, Entry>, o: Origin, refreshed: map<string, Entry>)
    returns (next: map<string, Entry>, missing: seq<string>)
    requires refreshed == RefreshedAll(prev, accepted)
    ensures next == MergedState(prev, accepted, o)
    ensures NoRepeats(missing) && AsSet(missing) == prev.Keys - accepted.Keys
  {
    next, missing := refreshed, [];
    ghost var done: set<string> := {};
    FlaggedEnds(prev, accepted, o);
    var todo := prev.Keys;
    while todo != {}
      invariant done !! todo && done + todo == prev.Keys
      invariant next == FlaggedWith(prev, accepted, o, done)
      invariant NoRepeats(missing) && AsSet(missing) == done - accepted.Keys
      decreases todo
    {
      var id :| id in todo;
      FlaggedOneMore(prev, accepted, o, done, id);
      if id !in next {
        next := next[id := Dropped(prev[id], o)];
        PushNew(missing, id);
        missing := missing + [id];
      }
      done, todo := done + {id}, todo - {id};
    }
    assert done == prev.Keys;
  }

  method MergeLibrarySnapshot(previous: seq<Entry>, incoming: seq<RawEntry>, o: Origin) returns (r: MergeResult)
    ensures r == Merging(previous, incoming, o)
  {
    var prev := IndexById(previous, EntryId);
    var g := MergeIncoming(prev, incoming, o);
    var next, missing := FlagMissing(prev, Accepted(incoming, o), o, g.next);
    r := MergeResult(SortedValues(next),
           Report(SortTexts(g.added), SortTexts(g.updated), SortTexts(g.same), SortTexts(missing), g.rejected));
  }

  // ---- Laws ---------------------------------------------------------------

  lemma {:induction false} AcceptedIsKeyed(incoming: seq<RawEntry>, o: Origin)
    ensures forall id :: id in Accepted(incoming, o) ==>
      Accepted(incoming, o)[id].bookId == id && Accepted(incoming, o)[id].lastSyncedAt == Some(o.observedAt)
  {
    if incoming == [] {
    } else {
      AcceptedIsKeyed(incoming[..|incoming| - 1], o);
    }
  }

  /** Every record is accepted or rejected, once. */
  lemma {:induction false} AcceptedOrRejected(incoming: seq<RawEntry>, o: Origin)
    ensures |Accepted(incoming, o)| + |Rejected(incoming, o)| == |incoming|
  {
    if incoming == [] {
    } else {
      AcceptedOrRejected(incoming[..|incoming| - 1], o);
    }
  }

  /** A well-formed record whose id occurs in no earlier well-formed one. */
  ghost predicate IsFirst(incoming: seq<RawEntry>, i: nat)
    requires i < |incoming|
  {
    incoming[i].Raw? && forall j :: 0 <= j < i ==> incoming[j].Malformed? || incoming[j].bookId != incoming[i].bookId
  }

  lemma FirstInFront(incoming: seq<RawEntry>, n: nat, i: nat)
    requires i < n <= |incoming|
    ensures IsFirst(incoming[..n], i) <==> IsFirst(incoming, i)
  {
    assert forall j :: 0 <= j <= i ==> incoming[..n][j] == incoming[j];
  }

  /** The accepted records are exactly the first well-formed ones of their ids. */
  lemma {:induction false} FirstIsAccepted(incoming: seq<RawEntry>, o: Origin, i: nat)
    requires i < |incoming| && IsFirst(incoming, i)
    ensures incoming[i].bookId in Accepted(incoming, o)
    ensures Accepted(incoming, o)[incoming[i].bookId] == Normalize(incoming[i], o)
  {
    var n := |incoming| - 1;
    if i < n {
      FirstInFront(incoming, n, i);
      FirstIsAccepted(incoming[..n], o, i);
    } else if incoming[n].bookId in Accepted(incoming[..n], o) {
      var j := AcceptedIsFirst(incoming[..n], o, incoming[n].bookId);
    }
  }

  lemma {:induction false} AcceptedIsFirst(incoming: seq<RawEntry>, o: Origin, id: string) returns (i: nat)
    requires id in Accepted(incoming, o)
    ensures i < |incoming| && IsFirst(incoming, i) && incoming[i].bookId == id
  {
    var n := |incoming| - 1;
    if id in Accepted(incoming[..n], o) {
      i := AcceptedIsFirst(incoming[..n], o, id);
      FirstInFront(incoming, n, i);
    } else {
      i := n;
      if j :| 0 <= j < n && incoming[j].Raw? && incoming[j].bookId == id {
        var k := FirstOccurrence(incoming[..n], j);
        FirstIsAccepted(incoming[..n], o, k);
      }
    }
  }

  lemma {:induction false} FirstOccurrence(incoming: seq<RawEntry>, j: nat) returns (i: nat)
    requires j < |incoming| && incoming[j].Raw?
    ensures i <= j && IsFirst(incoming, i) && incoming[i].bookId == incoming[j].bookId
    decreases j
  {
    if k :| 0 <= k < j && incoming[k].Raw? && incoming[k].bookId == incoming[j].bookId {
      i := FirstOccurrence(incoming, k);
    } else {
      i := j;
    }
  }

  ghost predicate RejectedAt(rejected: seq<Rejection>, i: nat) {
    exists k :: 0 <= k < |rejected| && rejected[k].recordIndex == i
  }

  lemma LastIsRejectedUnlessFirst(incoming: seq<RawEntry>, o: Origin)
    requires incoming != []
    ensures Rejected(incoming, o) == Rejected(incoming[..|incoming| - 1], o) <==> IsFirst(incoming, |incoming| - 1)
  {
    var n := |incoming| - 1;
    var raw := incoming[n];
    if raw.Raw? && raw.bookId in Accepted(incoming[..n], o) {
      var i := AcceptedIsFirst(incoming[..n], o, raw.bookId);
      assert incoming[..n][i] == incoming[i];
    }
    if raw.Raw? && !IsFirst(incoming, n) {
      var i := FirstOccurrence(incoming, n);
      FirstInFront(incoming, n, i);
      FirstIsAccepted(incoming[..n], o, i);
    }
  }

  ghost predicate Positional(rejected: seq<Rejection>, n: nat) {
    && (forall k :: 0 <= k < |rejected| ==> rejected[k].recordIndex < n)
    && (forall i, j :: 0 <= i < j < |rejected| ==> rejected[i].recordIndex < rejected[j].recordIndex)
  }

  lemma {:induction false} RejectedArePositional(incoming: seq<RawEntry>, o: Origin)
    ensures Positional(Rejected(incoming, o), |incoming|)
  {
    if incoming == [] {
    } else {
      RejectedArePositional(incoming[..|incoming| - 1], o);
    }
  }

  lemma RejectedAtMore(earlier: seq<Rejection>, last: Rejection, i: nat)
    ensures RejectedAt(earlier + [last], i) <==> RejectedAt(earlier, i) || last.recordIndex == i
  {
    var all := earlier + [last];
    assert all[|earlier|] == last;
    if RejectedAt(earlier, i) {
      var k :| 0 <= k < |earlier| && earlier[k].recordIndex == i;
      assert all[k].recordIndex == i;
    }
  }

  lemma {:induction false} RejectedExactly(incoming: seq<RawEntry>, o: Origin, i: nat)
    ensures RejectedAt(Rejected(incoming, o), i) <==> i < |incoming| && !IsFirst(incoming, i)
  {
    if incoming == [] {
    } else {
      var n := |incoming| - 1;
      var earlier, all := Rejected(incoming[..n], o), Rejected(incoming, o);
      RejectedExactly(incoming[..n], o, i);
      LastIsRejectedUnlessFirst(incoming, o);
      if i < n { FirstInFront(incoming, n, i); }
      if all != earlier {
        assert all == earlier + [all[|earlier|]] && all[|earlier|].recordIndex == n;
        RejectedAtMore(earlier, all[|earlier|], i);
      }
    }
  }

  /** Rejections are positional, in order, and name exactly the other records. */
  lemma RejectedAreTheOthers(incoming: seq<RawEntry>, o: Origin)
    ensures forall i: nat :: RejectedAt(Rejected(incoming, o), i) <==> i < |incoming| && !IsFirst(incoming, i)
    ensures Positional(Rejected(incoming, o), |incoming|)
  {
    RejectedArePositional(incoming, o);
    forall i: nat ensures RejectedAt(Rejected(incoming, o), i) <==> i < |incoming| && !IsFirst(incoming, i) {
      RejectedExactly(incoming, o, i);
    }
  }

  ghost predicate GivesReason(incoming: seq<RawEntry>, r: Rejection) {
    && r.recordIndex < |incoming|
    && r.category == if incoming[r.recordIndex].Malformed? then incoming[r.recordIndex].category else "duplicate-record"
  }

  /** A rejection says what is wrong with its record, and of a well-formed one that it repeats another. */
  lemma {:induction false} RejectedForAReason(incoming: seq<RawEntry>, o: Origin, k: nat)
    requires k < |Rejected(incoming, o)|
    ensures GivesReason(incoming, Rejected(incoming, o)[k])
  {
    var n := |incoming| - 1;
    var earlier := Rejected(incoming[..n], o);
    if k < |earlier| {
      RejectedForAReason(incoming[..n], o, k);
      assert Rejected(incoming, o)[k] == earlier[k];
    }
  }

  lemma StateIsKeyed(prev: map<string, Entry>, accepted: map<string, Entry>, o: Origin)
    requires forall id :: id in prev ==> prev[id].bookId == id
    requires forall id :: id in accepted ==> accepted[id].bookId == id
    ensures forall id :: id in MergedState(prev, accepted, o) ==> EntryId(MergedState(prev, accepted, o)[id]) == id
  {
  }

  lemma StateIsIdempotent(prev: map<string, Entry>, accepted: map<string, Entry>, o: Origin)
    ensures MergedState(MergedState(prev, accepted, o), accepted, o) == MergedState(prev, accepted, o)
  {
  }

  /** The merged entries, by id. */
  lemma MergedById(previous: seq<Entry>, incoming: seq<RawEntry>, o: Origin)
    ensures IndexBy(Merging(previous, incoming, o).entries, EntryId)
         == MergedState(IndexBy(previous, EntryId), Accepted(incoming, o), o)
  {
    var prev, accepted := IndexBy(previous, EntryId), Accepted(incoming, o);
    IndexKeys(previous, EntryId);
    AcceptedIsKeyed(incoming, o);
    StateIsKeyed(prev, accepted, o);
    IndexOfSortedValues(MergedState(prev, accepted, o), EntryId);
  }

  lemma StateAddsNothing(prev: map<string, Entry>, accepted: map<string, Entry>, o: Origin)
    ensures AddedIds(MergedState(prev, accepted, o), accepted) == {}
    ensures MergedState(prev, accepted, o).Keys - accepted.Keys == prev.Keys - accepted.Keys
  {
  }

  /** Merging the same input again changes nothing, and reports no book as new. */
  lemma MergeIsIdempotent(previous: seq<Entry>, incoming: seq<RawEntry>, o: Origin)
    ensures
      var once := Merging(previous, incoming, o);
      var twice := Merging(once.entries, incoming, o);
      && twice.entries == once.entries
      && twice.report.added == []
      && twice.report.missingFromSource == once.report.missingFromSource
      && twice.report.rejected == once.report.rejected
  {
    var prev, accepted := IndexBy(previous, EntryId), Accepted(incoming, o);
    MergedById(previous, incoming, o);
    StateIsIdempotent(prev, accepted, o);
    StateAddsNothing(prev, accepted, o);
  }

  ghost predicate Splits(a: set<string>, b: set<string>, c: set<string>, all: set<string>) {
    a !! b !! c && a + b + c == all
  }

  lemma SplitSizes(a: set<string>, b: set<string>, c: set<string>, all: set<string>)
    requires Splits(a, b, c, all)
    ensures |a| + |b| + |c| == |all|
  {
    assert all == a + b + c;
  }

  lemma AcceptedSplit(prev: map<string, Entry>, accepted: map<string, Entry>)
    ensures Splits(AddedIds(prev, accepted), UpdatedIds(prev, accepted), UnchangedIds(prev, accepted), accepted.Keys)
  {
  }

  /** The lists of a report, against the domain they come from. */
  ghost predicate Partitions(r: Report, prev: set<string>, accepted: set<string>) {
    && Splits(AsSet(r.added), AsSet(r.updated), AsSet(r.same), accepted)
    && AsSet(r.missingFromSource) == prev - accepted
    && |r.added| + |r.updated| + |r.same| == |accepted|
  }

  lemma ReportPartitions(prev: map<string, Entry>, accepted: map<string, Entry>, rejected: seq<Rejection>)
    ensures Partitions(
      Report(SortedIds(AddedIds(prev, accepted)), SortedIds(UpdatedIds(prev, accepted)),
             SortedIds(UnchangedIds(prev, accepted)), SortedIds(prev.Keys - accepted.Keys), rejected),
      prev.Keys, accepted.Keys)
  {
    ReportLists(prev, accepted);
    AcceptedSplit(prev, accepted);
    SplitSizes(AddedIds(prev, accepted), UpdatedIds(prev, accepted), UnchangedIds(prev, accepted), accepted.Keys);
  }

  lemma MergedDomain(previous: seq<Entry>, incoming: seq<RawEntry>, o: Origin)
    ensures IndexBy(Merging(previous, incoming, o).entries, EntryId).Keys
      == Accepted(incoming, o).Keys + IndexBy(previous, EntryId).Keys
  {
    MergedById(previous, incoming, o);
    StateAddsNothing(IndexBy(previous, EntryId), Accepted(incoming, o), o);
  }

  /** The merged domain is the old books and the accepted ones; added, updated and
      unchanged partition the accepted ones, missing is the rest, and with the rejections
      the first three account for every incoming record. */
  lemma ReportPartitionsDomain(previous: seq<Entry>, incoming: seq<RawEntry>, o: Origin)
    ensures
      var r := Merging(previous, incoming, o);
      var prev, accepted := IndexBy(previous, EntryId).Keys, Accepted(incoming, o).Keys;
      && IndexBy(r.entries, EntryId).Keys == accepted + prev
      && Partitions(r.report, prev, accepted)
      && |r.report.added| + |r.report.updated| + |r.report.same| + |r.report.rejected| == |incoming|
  {
    MergedDomain(previous, incoming, o);
    AcceptedOrRejected(incoming, o);
    ReportPartitions(IndexBy(previous, EntryId), Accepted(incoming, o), Rejected(incoming, o));
  }

  lemma ReportLists(prev: map<string, Entry>, accepted: map<string, Entry>)
    ensures AsSet(SortedIds(AddedIds(prev, accepted))) == AddedIds(prev, accepted)
    ensures AsSet(SortedIds(UpdatedIds(prev, accepted))) == UpdatedIds(prev, accepted)
    ensures AsSet(SortedIds(UnchangedIds(prev, accepted))) == UnchangedIds(prev, accepted)
    ensures AsSet(SortedIds(prev.Keys - accepted.Keys)) == prev.Keys - accepted.Keys
  {
    AsSetOfSortedIds(AddedIds(prev, accepted));
    AsSetOfSortedIds(UpdatedIds(prev, accepted));
    AsSetOfSortedIds(UnchangedIds(prev, accepted));
    AsSetOfSortedIds(prev.Keys - accepted.Keys);
  }

  // ---- Field by field -----------------------------------------------------------

  function EntryIn(entries: seq<Entry>, id: string): Option<Entry> {
    if id in IndexBy(entries, EntryId) then Some(IndexBy(entries, EntryId)[id]) else None
  }

  function Given(o: Option<Instant>, observedAt: Instant): Option<Instant> { if o.Some? then o else Some(observedAt) }

  /** The known entry already says what the record says, and was not missed. */
  predicate SaysTheSame(before: Option<Entry>, raw: RawEntry)
    requires raw.Raw?
  {
    before.Some? && before.value.facts == raw.facts && !before.value.missingFromSource
  }

  /** An accepted record gives its book its facts and times, synced now; unless the book already
      said the same, it is stamped anew and missing only if the record says so. */
  lemma AcceptedByField(previous: seq<Entry>, incoming: seq<RawEntry>, o: Origin, i: nat)
    requires i < |incoming| && IsFirst(incoming, i)
    ensures
      var raw, before, after := incoming[i], EntryIn(previous, incoming[i].bookId),
                                EntryIn(Merging(previous, incoming, o).entries, incoming[i].bookId);
      && after == Some(Entry(raw.bookId, raw.facts,
           if SaysTheSame(before, raw) then before.value.provenance else Provenance(o.source, o.observedAt),
           Some(o.observedAt), Given(raw.sourceObservedAt, o.observedAt), Given(raw.lastSeenAt, o.observedAt),
           !SaysTheSame(before, raw) && raw.missingFromSource == Some(true)))
  {
    MergedById(previous, incoming, o);
    FirstIsAccepted(incoming, o, i);
    IndexKeys(previous, EntryId);
  }

  /** No well-formed record names the book. */
  ghost predicate Unnamed(incoming: seq<RawEntry>, id: string) {
    forall i :: 0 <= i < |incoming| && incoming[i].Raw? ==> incoming[i].bookId != id
  }

  lemma UnnamedExactly(incoming: seq<RawEntry>, o: Origin, id: string)
    ensures Unnamed(incoming, id) <==> id !in Accepted(incoming, o)
  {
    if id in Accepted(incoming, o) {
      var i := AcceptedIsFirst(incoming, o, id);
    }
    if !Unnamed(incoming, id) {
      var j :| 0 <= j < |incoming| && incoming[j].Raw? && incoming[j].bookId == id;
      var i := FirstOccurrence(incoming, j);
      FirstIsAccepted(incoming, o, i);
    }
  }

  /** A book no record names is kept as it was, flagged as missing and synced now; and no other
      books come in. */
  lemma UnnamedByField(previous: seq<Entry>, incoming: seq<RawEntry>, o: Origin, id: string)
    requires Unnamed(incoming, id)
    ensures
      var before, after := EntryIn(previous, id), EntryIn(Merging(previous, incoming, o).entries, id);
      after == if before.None? then None else Some(Entry(
        before.value.bookId, before.value.facts, before.value.provenance, Some(o.observedAt),
        before.value.sourceObservedAt, before.value.lastSeenAt, true))
  {
    MergedById(previous, incoming, o);
    UnnamedExactly(incoming, o, id);
  }

  /** The list a book is reported in. */
  lemma ReportByField(previous: seq<Entry>, incoming: seq<RawEntry>, o: Origin, id: string)
    ensures
      var r, before := Merging(previous, incoming, o).report, EntryIn(previous, id);
      && (id in r.missingFromSource <==> before.Some? && Unnamed(incoming, id))
      && (id in r.added <==> before.None? && !Unnamed(incoming, id))
      && (id in r.updated ==> before.Some? && !Unnamed(incoming, id))
      && (id in r.same ==> before.Some? && !Unnamed(incoming, id))
  {
    var prev, accepted := IndexBy(previous, EntryId), Accepted(incoming, o);
    UnnamedExactly(incoming, o, id);
    SortedIdsElements(AddedIds(prev, accepted));
    SortedIdsElements(UpdatedIds(prev, accepted));
    SortedIdsElements(UnchangedIds(prev, accepted));
    SortedIdsElements(prev.Keys - accepted.Keys);
  }

  lemma KnownIsReported(previous: seq<Entry>, incoming: seq<RawEntry>, o: Origin, i: nat)
    requires i < |incoming| && IsFirst(incoming, i) && EntryIn(previous, incoming[i].bookId).Some?
    ensures
      var r, id := Merging(previous, incoming, o).report, incoming[i].bookId;
      var same := SaysTheSame(EntryIn(previous, id), incoming[i]);
      (id in r.same <==> same) && (id in r.updated <==> !same)
  {
    var prev, accepted := IndexBy(previous, EntryId), Accepted(incoming, o);
    FirstIsAccepted(incoming, o, i);
    SortedIdsElements(UpdatedIds(prev, accepted));
    SortedIdsElements(UnchangedIds(prev, accepted));
  }
}
