/** The stored snapshot as the next sync sees it: `#previousSnapshot` of
    src/sync/private-alpha-service.js validates what it unsealed like a fresh capture, which
    stamps every entry anew. */
module Reopening {
  import opened Texts
  import opened Library
  import opened Reconcile
  import opened ReconcileLaws
  import opened ReconcileRuns
  import Merge
  import LiveSnapshot

  const PRIVATE_SOURCE := "audible-community-private-api"

  /** Stored entries as validation reads them. */
  function AsStored(entries: seq<Entry>): seq<Merge.RawEntry> {
    seq(|entries|, i requires 0 <= i < |entries| => RawOf(entries[i]))
  }

  function RawOf(e: Entry): Merge.RawEntry {
    Merge.Raw(e.bookId, e.facts, e.sourceObservedAt, e.lastSeenAt, Some(e.missingFromSource))
  }

  function OriginAt(at: Instant): Merge.Origin { Merge.Origin(PRIVATE_SOURCE, at) }

  ghost function Reopened(s: Snapshot): Result<Snapshot, LiveSnapshot.ValidationError> {
    if s.observedAt.None? then Err(LiveSnapshot.ObservedAtInvalid)
    else
      var merge := LiveSnapshot.Validated(s.catalog, AsStored(s.entries), OriginAt(s.observedAt.value));
      if merge.Err? then Err(merge.error) else Ok(s.(entries := merge.value.entries))
  }

  method Reopen(s: Snapshot) returns (r: Result<Snapshot, LiveSnapshot.ValidationError>)
    ensures r == Reopened(s)
  {
    if s.observedAt.None? { return Err(LiveSnapshot.ObservedAtInvalid); }
    var merge := LiveSnapshot.ValidateLiveSnapshot(s.catalog, AsStored(s.entries), OriginAt(s.observedAt.value));
    if merge.Err? { return Err(merge.error); }
    r := Ok(s.(entries := merge.value.entries));
  }

  // ---- Exactly what reopens, and as what -------------------------------------------

  function Stamped(e: Entry, at: Instant): Entry {
    e.(provenance := Provenance(PRIVATE_SOURCE, at), lastSyncedAt := Some(at),
       sourceObservedAt := Some(Merge.Or(e.sourceObservedAt, at)), lastSeenAt := Some(Merge.Or(e.lastSeenAt, at)))
  }

  function StampedAll(entries: map<string, Entry>, at: Instant): map<string, Entry> {
    map id | id in entries :: Stamped(entries[id], at)
  }

  function StampedIndex(ix: Index, at: Instant): Index { ix.(entries := StampedAll(ix.entries, at)) }

  lemma AcceptedOneMore(front: seq<Entry>, last: Entry, at: Instant)
    requires last.bookId !in Merge.Accepted(AsStored(front), OriginAt(at))
    ensures Merge.Accepted(AsStored(front + [last]), OriginAt(at))
         == Merge.Accepted(AsStored(front), OriginAt(at))[last.bookId := Stamped(last, at)]
  {
    var raw := AsStored(front + [last]);
    assert raw[..|raw| - 1] == AsStored(front) && raw[|raw| - 1] == RawOf(last);
  }

  lemma StampedOneMore(front: seq<Entry>, last: Entry, at: Instant)
    ensures StampedAll(IndexBy(front + [last], EntryId), at)
         == StampedAll(IndexBy(front, EntryId), at)[last.bookId := Stamped(last, at)]
  {
    assert (front + [last])[..|front|] == front;
  }

  lemma LastIsNew(front: seq<Entry>, last: Entry)
    requires DistinctIds(front + [last], EntryId)
    ensures DistinctIds(front, EntryId) && last.bookId !in IndexBy(front, EntryId)
  {
    var all := front + [last];
    assert forall i :: 0 <= i < |front| ==> all[i] == front[i];
    assert forall i :: 0 <= i < |front| ==> EntryId(all[i]) != EntryId(all[|front|]);
    IndexKeys(front, EntryId);
  }

  lemma {:induction false} AcceptedIsStamped(entries: seq<Entry>, at: Instant)
    requires DistinctIds(entries, EntryId)
    ensures Merge.Accepted(AsStored(entries), OriginAt(at)) == StampedAll(IndexBy(entries, EntryId), at)
  {
    if entries == [] {
    } else {
      var front, last := entries[..|entries| - 1], entries[|entries| - 1];
      assert entries == front + [last];
      LastIsNew(front, last);
      AcceptedIsStamped(front, at);
      AcceptedOneMore(front, last, at);
      StampedOneMore(front, last, at);
    }
  }

  lemma StoredIdsAre(entries: seq<Entry>)
    ensures LiveSnapshot.Clean(AsStored(entries)) <==> DistinctIds(entries, EntryId)
    ensures LiveSnapshot.RawIds(AsStored(entries)) == Ids(entries, EntryId)
  {
    var raw := AsStored(entries);
    assert forall i :: 0 <= i < |raw| ==> raw[i].Raw? && raw[i].bookId == EntryId(entries[i]);
    if LiveSnapshot.Clean(raw) {
      forall i, j | 0 <= i < j < |entries| ensures EntryId(entries[i]) != EntryId(entries[j]) {
        assert raw[i].bookId != raw[j].bookId;
      }
    }
    forall id | id in Ids(entries, EntryId) ensures id in LiveSnapshot.RawIds(raw) {
      var i :| 0 <= i < |entries| && EntryId(entries[i]) == id;
      assert raw[i].bookId == id;
    }
  }

  /** A stored snapshot is accepted again exactly when its catalog is consistent, no entry
      repeats, and every entry has its book; it comes back with its entries stamped. */
  lemma ReopensExactly(s: Snapshot)
    ensures Reopened(s).Ok? <==>
      && s.observedAt.Some? && LiveSnapshot.Consistent(s.catalog)
      && DistinctIds(s.entries, EntryId) && Ids(s.entries, EntryId) <= Ids(s.catalog.books, BookId)
    ensures Reopened(s).Ok? ==>
      Reopened(s).value == s.(entries := SortedValues(StampedAll(IndexBy(s.entries, EntryId), s.observedAt.value)))
  {
    if s.observedAt.Some? {
      var o := OriginAt(s.observedAt.value);
      LiveSnapshot.AcceptsExactly(s.catalog, AsStored(s.entries), o);
      StoredIdsAre(s.entries);
      if Reopened(s).Ok? {
        AcceptedIsStamped(s.entries, s.observedAt.value);
        Merge.AcceptedIsKeyed(AsStored(s.entries), o);
        LiveSnapshot.FirstState(Merge.Accepted(AsStored(s.entries), o), o);
      }
    }
  }

  /** By id nothing changes but the stamps of entries; the reopened snapshot is whole. */
  lemma ReopenedIndex(s: Snapshot)
    requires Reopened(s).Ok?
    ensures IndexOf(Reopened(s).value) == StampedIndex(IndexOf(s), s.observedAt.value)
    ensures Whole(Reopened(s).value.catalog, Reopened(s).value.entries)
  {
    ReopensExactly(s);
    StampedValues(s.entries, s.observedAt.value);
    ReopenedIsWhole(Reopened(s).value, s);
  }

  lemma ReopenedKeepsIds(s: Snapshot)
    requires Reopened(s).Ok?
    ensures IndexOf(Reopened(s).value).entries.Keys == IndexOf(s).entries.Keys
  {
    ReopenedIndex(s);
    assert StampedAll(IndexOf(s).entries, s.observedAt.value).Keys == IndexOf(s).entries.Keys;
  }

  lemma StampedValues(entries: seq<Entry>, at: Instant)
    ensures var stamped := StampedAll(IndexBy(entries, EntryId), at); IndexBy(SortedValues(stamped), EntryId) == stamped
  {
    IndexKeys(entries, EntryId);
    IndexOfSortedValues(StampedAll(IndexBy(entries, EntryId), at), EntryId);
  }

  lemma ReopenedIsWhole(p: Snapshot, s: Snapshot)
    requires LiveSnapshot.Consistent(s.catalog) && Ids(s.entries, EntryId) <= Ids(s.catalog.books, BookId)
    requires p.catalog == s.catalog && IndexOf(p).entries.Keys == IndexOf(s).entries.Keys
    ensures Whole(p.catalog, p.entries)
  {
    IndexKeys(s.entries, EntryId);
    IndexKeys(p.entries, EntryId);
    forall i | 0 <= i < |p.entries| ensures p.entries[i].bookId in Ids(p.catalog.books, BookId) {
      assert EntryId(p.entries[i]) in Ids(p.entries, EntryId);
    }
  }

  /** What reconciliation promoted, the next sync accepts: whatever was stored before. */
  lemma PromotedSnapshotReopens(previous: Option<Snapshot>, c: Snapshot)
    requires Reconciliation(previous, Some(c), true).Ok?
    ensures Reopened(Reconciliation(previous, Some(c), true).value.snapshot).Ok?
  {
    var s := Reconciliation(previous, Some(c), true).value.snapshot;
    ReconciledIsAcceptable(previous, c);
    PromotedIsWhole(previous, c);
    PromotedHasDistinctIds(previous, c);
    forall id | id in Ids(s.entries, EntryId) ensures id in Ids(s.catalog.books, BookId) {
      var i :| 0 <= i < |s.entries| && EntryId(s.entries[i]) == id;
      assert s.entries[i].bookId == id;
    }
    ReopensExactly(s);
  }

  lemma PromotedHasDistinctIds(previous: Option<Snapshot>, c: Snapshot)
    requires Acceptable(c) && Reconciliation(previous, Some(c), true).Ok?
    ensures var s := Reconciliation(previous, Some(c), true).value.snapshot;
      && DistinctIds(s.entries, EntryId) && DistinctIds(s.catalog.books, BookId)
      && DistinctIds(s.catalog.people, PersonId) && DistinctIds(s.catalog.facets, FacetId)
  {
    var s := Reconciliation(previous, Some(c), true).value.snapshot;
    ResultIndex(previous, c);
    IndexIsKeyed(s);
    var ix := IndexOf(s);
    IndexOfSortedValues(ix.entries, EntryId);
    IndexOfSortedValues(ix.books, BookId);
    IndexOfSortedValues(ix.people, PersonId);
    IndexOfSortedValues(ix.facets, FacetId);
  }

  // ---- What the stamps change ---------------------------------------------------------

  function BareEntry(e: Entry): Entry { e.(provenance := Provenance("", 0), lastSyncedAt := None) }

  /** A library without the stamps of its entries. */
  function Bare(ix: Index): Index { ix.(entries := map id | id in ix.entries :: BareEntry(ix.entries[id])) }

  /** Alike but for the stamps. */
  ghost predicate Alike(s: Snapshot, t: Snapshot) {
    s.observedAt == t.observedAt && s.header == t.header && s.catalog == t.catalog && Bare(IndexOf(s)) == Bare(IndexOf(t))
  }

  ghost predicate BothAlike(p: Option<Snapshot>, q: Option<Snapshot>) {
    (p.None? && q.None?) || (p.Some? && q.Some? && Alike(p.value, q.value))
  }

  /** Every entry carries its observation times. */
  ghost predicate Dated(ix: Index) {
    forall id :: id in ix.entries ==> ix.entries[id].sourceObservedAt.Some? && ix.entries[id].lastSeenAt.Some?
  }

  lemma BareEntries(a: Index, b: Index)
    requires Bare(a) == Bare(b)
    ensures a.entries.Keys == b.entries.Keys && a.books == b.books && a.people == b.people && a.facets == b.facets
    ensures forall id :: id in a.entries ==> BareEntry(a.entries[id]) == BareEntry(b.entries[id])
  {
    assert a.entries.Keys == Bare(a).entries.Keys && b.entries.Keys == Bare(b).entries.Keys;
    forall id | id in a.entries ensures BareEntry(a.entries[id]) == BareEntry(b.entries[id]) {
      assert Bare(a).entries[id] == Bare(b).entries[id];
    }
  }

  lemma SameBare(a: Index, b: Index)
    requires a.(entries := map[]) == b.(entries := map[]) && a.entries.Keys == b.entries.Keys
    requires forall id :: id in a.entries ==> BareEntry(a.entries[id]) == BareEntry(b.entries[id])
    ensures Bare(a) == Bare(b)
  {
    assert Bare(a).entries == Bare(b).entries;
    assert Bare(a) == a.(entries := map[]).(entries := Bare(a).entries);
    assert Bare(b) == b.(entries := map[]).(entries := Bare(b).entries);
  }

  lemma AlikeMerge(p: Index, q: Index, cand: Index, now: Instant, previousAt: Instant)
    requires Bare(p) == Bare(q)
    ensures Bare(Merged(p, cand, now, previousAt)) == Bare(Merged(q, cand, now, previousAt))
    ensures Merged(p, cand, now, previousAt).(entries := map[]) == Merged(q, cand, now, previousAt).(entries := map[])
  {
    BareEntries(p, q);
    assert Gone(p, cand) == Gone(q, cand);
    AlikeEntries(p.entries, q.entries, cand.entries, Gone(p, cand), now, previousAt);
    SameBare(Merged(p, cand, now, previousAt), Merged(q, cand, now, previousAt));
  }

  lemma AlikeVerdict(p: Index, q: Index, cand: Index, now: Instant)
    requires Bare(p) == Bare(q)
    ensures ReportOf(p, cand, now) == ReportOf(q, cand, now)
    ensures RetentionWhole(p, cand) <==> RetentionWhole(q, cand)
  {
    BareEntries(p, q);
    AlikeReport(p, q, cand, now);
    assert Gone(p, cand) == Gone(q, cand);
  }

  lemma AlikeEntries(p: map<string, Entry>, q: map<string, Entry>, cand: map<string, Entry>, gone: set<string>,
                     now: Instant, previousAt: Instant)
    requires p.Keys == q.Keys && gone <= p.Keys
    requires forall id :: id in p ==> BareEntry(p[id]) == BareEntry(q[id])
    ensures var a, b := EntriesWith(p, cand, gone, now, previousAt), EntriesWith(q, cand, gone, now, previousAt);
      a.Keys == b.Keys && forall id :: id in a ==> BareEntry(a[id]) == BareEntry(b[id])
  {
    forall id | id in gone ensures BareEntry(Retained(p[id], now, previousAt)) == BareEntry(Retained(q[id], now, previousAt)) {
      assert BareEntry(p[id]).lastSeenAt == BareEntry(q[id]).lastSeenAt;
      assert BareEntry(p[id]).sourceObservedAt == BareEntry(q[id]).sourceObservedAt;
      assert BareEntry(p[id]).bookId == BareEntry(q[id]).bookId && BareEntry(p[id]).facts == BareEntry(q[id]).facts;
    }
  }

  lemma AlikeReport(p: Index, q: Index, cand: Index, now: Instant)
    requires p.entries.Keys == q.entries.Keys && p.books == q.books
    requires forall id :: id in p.entries ==> BareEntry(p.entries[id]) == BareEntry(q.entries[id])
    ensures ReportOf(p, cand, now) == ReportOf(q, cand, now)
  {
    forall id | id in p.entries ensures p.entries[id].missingFromSource == q.entries[id].missingFromSource {
      assert BareEntry(p.entries[id]).missingFromSource == BareEntry(q.entries[id]).missingFromSource;
    }
    assert ReappearedIds(p, cand) == ReappearedIds(q, cand);
    assert UpdatedIds(p, cand) == UpdatedIds(q, cand);
  }

  /** The stamps of the previous snapshot decide nothing: success, report and result are the
      same without them. */
  lemma StampsDecideNothing(p: Option<Snapshot>, q: Option<Snapshot>, c: Snapshot)
    requires BothAlike(p, q)
    ensures var r, r' := Reconciliation(p, Some(c), true), Reconciliation(q, Some(c), true);
      && (r.Ok? <==> r'.Ok?)
      && (r.Ok? ==> Alike(r.value.snapshot, r'.value.snapshot) && r.value.report == r'.value.report)
  {
    ReconciledIsAcceptable(p, c);
    ReconciledIsAcceptable(q, c);
    if Acceptable(c) {
      var now := c.observedAt.value;
      var previousAt := PreviousObservedAt(p, now);
      assert PreviousObservedAt(q, now) == previousAt;
      AlikeMerge(PreviousIndex(p), PreviousIndex(q), IndexOf(c), now, previousAt);
      AlikeVerdict(PreviousIndex(p), PreviousIndex(q), IndexOf(c), now);
      FinalCheckFailsExactly(p, c);
      FinalCheckFailsExactly(q, c);
      if Reconciliation(p, Some(c), true).Ok? {
        ResultSnapshot(p, c);
        ResultSnapshot(q, c);
        ResultIndex(p, c);
        ResultIndex(q, c);
        AlikeCatalogs(c, Merged(PreviousIndex(p), IndexOf(c), now, previousAt), Merged(PreviousIndex(q), IndexOf(c), now, previousAt));
      }
    }
  }

  lemma AlikeCatalogs(c: Snapshot, a: Index, b: Index)
    requires a.(entries := map[]) == b.(entries := map[])
    ensures SnapshotOf(c, a).catalog == SnapshotOf(c, b).catalog
  {
    assert a.(entries := map[]).books == b.(entries := map[]).books;
    assert a.(entries := map[]).people == b.(entries := map[]).people;
    assert a.(entries := map[]).facets == b.(entries := map[]).facets;
  }

  lemma StampingIsBare(ix: Index, at: Instant)
    requires Dated(ix)
    ensures Bare(StampedIndex(ix, at)) == Bare(ix)
  {
    var stamped := StampedIndex(ix, at);
    forall id | id in ix.entries ensures BareEntry(stamped.entries[id]) == BareEntry(ix.entries[id]) { }
    assert Bare(stamped).entries == Bare(ix).entries;
  }

  lemma MergedIsDated(prev: Index, cand: Index, now: Instant, previousAt: Instant)
    ensures Dated(Merged(prev, cand, now, previousAt))
  {
    var entries := EntriesWith(prev.entries, cand.entries, Gone(prev, cand), now, previousAt);
    forall id | id in entries ensures entries[id].sourceObservedAt.Some? && entries[id].lastSeenAt.Some? { }
  }

  lemma PromotedIsDated(previous: Option<Snapshot>, c: Snapshot)
    requires Reconciliation(previous, Some(c), true).Ok?
    ensures Dated(IndexOf(Reconciliation(previous, Some(c), true).value.snapshot))
  {
    var now := c.observedAt.value;
    ReconciledIsAcceptable(previous, c);
    MergedIsDated(PreviousIndex(previous), IndexOf(c), now, PreviousObservedAt(previous, now));
    ResultIndex(previous, c);
  }

  /** Reopening what was promoted changes nothing but the stamps. */
  lemma ReopenedIsAlike(previous: Option<Snapshot>, c: Snapshot)
    requires Reconciliation(previous, Some(c), true).Ok?
    ensures var s := Reconciliation(previous, Some(c), true).value.snapshot;
      Reopened(s).Ok? && Alike(Reopened(s).value, s)
  {
    var s := Reconciliation(previous, Some(c), true).value.snapshot;
    PromotedSnapshotReopens(previous, c);
    ReopenedIndex(s);
    ReopensExactly(s);
    PromotedIsDated(previous, c);
    StampingIsBare(IndexOf(s), s.observedAt.value);
  }

  // ---- The library a service keeps --------------------------------------------------------

  /** What the service holds after the first `k` captures: the previous snapshot is reopened,
      and a capture refused at any point leaves it alone. */
  ghost function ServedAfter(captures: seq<Capture>, k: nat): Option<Snapshot>
    requires k <= |captures|
  {
    if k == 0 then None
    else
      var before := ServedAfter(captures, k - 1);
      if before.Some? && Reopened(before.value).Err? then before
      else
        var previous := if before.Some? then Some(Reopened(before.value).value) else None;
        var r := Reconciliation(previous, captures[k - 1].snapshot, captures[k - 1].complete);
        if r.Ok? then Some(r.value.snapshot) else before
  }

  ghost predicate ServedAlike(captures: seq<Capture>, k: nat)
    requires k <= |captures|
  {
    var served, kept := ServedAfter(captures, k), LibraryAfter(captures, k);
    && BothAlike(served, kept)
    && (served.Some? ==> Reopened(served.value).Ok? && Alike(Reopened(served.value).value, served.value))
  }

  lemma ServedStep(captures: seq<Capture>, k: nat)
    requires k < |captures| && ServedAlike(captures, k)
    ensures ServedAlike(captures, k + 1)
  {
    var served, kept, capture := ServedAfter(captures, k), LibraryAfter(captures, k), captures[k];
    var previous := if served.Some? then Some(Reopened(served.value).value) else None;
    if capture.complete && capture.snapshot.Some? {
      var c := capture.snapshot.value;
      StampsDecideNothing(previous, kept, c);
      if Reconciliation(previous, Some(c), true).Ok? { ReopenedIsAlike(previous, c); }
    }
  }

  /** Over every run of captures the service's library is the one reconciliation alone would
      keep, but for the stamps of its entries, and it can always be reopened. */
  lemma {:induction false} ServiceKeepsTheLibrary(captures: seq<Capture>, k: nat)
    requires k <= |captures|
    ensures ServedAlike(captures, k)
  {
    for n := 0 to k
      invariant ServedAlike(captures, n)
    {
      ServedStep(captures, n);
    }
  }

  // ---- Replaying a capture through the service -----------------------------------------------

  /** Every retained entry already carries the stamp of this observation. */
  ghost predicate RetainedAreStamped(prev: Index, cand: Index, now: Instant) {
    forall id :: id in Gone(prev, cand) ==>
      prev.entries[id].provenance == Provenance(PRIVATE_SOURCE, now) && prev.entries[id].lastSyncedAt == Some(now)
  }

  lemma RestampedEntry(e: Entry, now: Instant, previousAt: Instant)
    ensures var once := Retained(e, now, previousAt);
      Retained(Stamped(once, now), now, now)
        == once.(provenance := Provenance(PRIVATE_SOURCE, now), lastSyncedAt := Some(now))
  {
  }

  lemma ReplayedStamps(prev: map<string, Entry>, cand: map<string, Entry>, gone: set<string>, now: Instant, previousAt: Instant)
    requires gone == prev.Keys - cand.Keys
    ensures var once := EntriesWith(prev, cand, gone, now, previousAt);
      EntriesWith(StampedAll(once, now), cand, gone, now, now) == once <==>
        forall id :: id in gone ==>
          prev[id].provenance == Provenance(PRIVATE_SOURCE, now) && prev[id].lastSyncedAt == Some(now)
  {
    var once := EntriesWith(prev, cand, gone, now, previousAt);
    var twice := EntriesWith(StampedAll(once, now), cand, gone, now, now);
    assert twice.Keys == once.Keys;
    forall id | id in once
      ensures twice[id] == once[id] <==>
        (id in gone ==> prev[id].provenance == Provenance(PRIVATE_SOURCE, now) && prev[id].lastSyncedAt == Some(now))
    {
      if id in gone { RestampedEntry(prev[id], now, previousAt); }
    }
    SameMaps(twice, once);
  }

  lemma SameMaps(a: map<string, Entry>, b: map<string, Entry>)
    requires a.Keys == b.Keys
    ensures a == b <==> forall id :: id in b ==> a[id] == b[id]
  {
    assert (forall id :: id in b ==> a[id] == b[id]) ==> a == b;
  }

  /** Through the service a replay is exact if and only if, besides nothing being orphaned,
      every retained entry was stamped with this very observation before. */
  lemma ReopenedReplayIsExactly(previous: Option<Snapshot>, c: Snapshot)
    requires Acceptable(c) && Reconciliation(previous, Some(c), true).Ok?
    ensures
      var s1 := Reconciliation(previous, Some(c), true).value.snapshot;
      Reopened(s1).Ok? && var r2 := Reconciliation(Some(Reopened(s1).value), Some(c), true);
      && r2.Ok?
      && (r2.value.snapshot == s1 <==>
            && NothingOrphaned(PreviousIndex(previous), IndexOf(c))
            && RetainedAreStamped(PreviousIndex(previous), IndexOf(c), c.observedAt.value))
  {
    var now := c.observedAt.value;
    var prev, cand, previousAt := PreviousIndex(previous), IndexOf(c), PreviousObservedAt(previous, now);
    var s1 := Reconciliation(previous, Some(c), true).value.snapshot;
    ReplayByIndex(previous, c);
    ReopenedIsAlike(previous, c);
    StampsDecideNothing(Some(Reopened(s1).value), Some(s1), c);
    ReopenedIndex(s1);
    ResultIndex(Some(Reopened(s1).value), c);
    WholeGivesWholeIndex(c);
    ReopenedReplayByIndex(prev, cand, now, previousAt);
  }

  /** Stamps reach only the entries of a merge. */
  lemma RestampedMerge(ix: Index, cand: Index, now: Instant)
    ensures var plain, again := Merged(ix, cand, now, now), Merged(StampedIndex(ix, now), cand, now, now);
      again == plain.(entries := EntriesWith(StampedAll(ix.entries, now), cand.entries, Gone(ix, cand), now, now))
  {
    assert Gone(StampedIndex(ix, now), cand) == Gone(ix, cand);
  }

  lemma ReopenedReplayByIndex(prev: Index, cand: Index, now: Instant, previousAt: Instant)
    requires WholeIndex(cand)
    ensures
      var once := Merged(prev, cand, now, previousAt);
      Merged(StampedIndex(once, now), cand, now, now) == once <==>
        NothingOrphaned(prev, cand) && RetainedAreStamped(prev, cand, now)
  {
    var once := Merged(prev, cand, now, previousAt);
    var twice, again := Merged(once, cand, now, now), Merged(StampedIndex(once, now), cand, now, now);
    ReplayedEntriesAndBooks(prev, cand, now, previousAt);
    RestampedMerge(once, cand, now);
    assert again == once <==> twice == once && again.entries == once.entries;
    ReplayedIndex(prev, cand, now, previousAt);
    ReplayedStamps(prev.entries, cand.entries, Gone(prev, cand), now, previousAt);
  }

  /** A second replay through the service is always the first one. */
  lemma ReopenedReplayStabilizes(previous: Option<Snapshot>, c: Snapshot)
    requires Acceptable(c) && Reconciliation(previous, Some(c), true).Ok?
    ensures
      var s1 := Reconciliation(previous, Some(c), true).value.snapshot;
      Reopened(s1).Ok? && var r2 := Reconciliation(Some(Reopened(s1).value), Some(c), true);
      r2.Ok? && Reopened(r2.value.snapshot).Ok?
      && var r3 := Reconciliation(Some(Reopened(r2.value.snapshot).value), Some(c), true);
      r3.Ok? && r3.value.snapshot == r2.value.snapshot
  {
    var now := c.observedAt.value;
    var prev, cand, previousAt := PreviousIndex(previous), IndexOf(c), PreviousObservedAt(previous, now);
    var s1 := Reconciliation(previous, Some(c), true).value.snapshot;
    ReopenedReplayIsExactly(previous, c);
    ReplayByIndex(previous, c);
    ReopenedIndex(s1);
    WholeGivesWholeIndex(c);
    SecondPassOrphansNothing(prev, cand, now, previousAt);
    StampedOrphansAlike(Merged(prev, cand, now, previousAt), cand, now);
    ReopenedReplayIsExactly(Some(Reopened(s1).value), c);
  }

  lemma StampedOrphansAlike(ix: Index, cand: Index, now: Instant)
    ensures NothingOrphaned(StampedIndex(ix, now), cand) <==> NothingOrphaned(ix, cand)
    ensures RetainedAreStamped(StampedIndex(ix, now), cand, now)
  {
    assert Gone(StampedIndex(ix, now), cand) == Gone(ix, cand);
    assert KeptBooks(StampedIndex(ix, now), cand) == KeptBooks(ix, cand);
  }

  const EMPTY_CAPTURE := Snapshot(Some(1), "", Catalog([], [], []), [])

  /** An entry retained from an older observation is stamped anew when the same capture is
      replayed, although reconciliation alone would return the same snapshot. */
  lemma ReopenedReplayCanRestamp()
    ensures
      var r1 := Reconciliation(Some(BEFORE), Some(EMPTY_CAPTURE), true);
      r1.Ok? && Reconciliation(Some(r1.value.snapshot), Some(EMPTY_CAPTURE), true).Ok?
      && Reconciliation(Some(r1.value.snapshot), Some(EMPTY_CAPTURE), true).value.snapshot == r1.value.snapshot
      && Reopened(r1.value.snapshot).Ok?
      && var again := Reconciliation(Some(Reopened(r1.value.snapshot).value), Some(EMPTY_CAPTURE), true);
      again.Ok? && again.value.snapshot != r1.value.snapshot
  {
    WitnessIndexes();
    EmptyCaptureReconciles(IndexOf(BEFORE), IndexOf(EMPTY_CAPTURE));
    FinalCheckFailsExactly(Some(BEFORE), EMPTY_CAPTURE);
    SameIdsReplayExactly(Some(BEFORE), EMPTY_CAPTURE);
    ReopenedReplayIsExactly(Some(BEFORE), EMPTY_CAPTURE);
  }

  lemma EmptyCaptureReconciles(prev: Index, cand: Index)
    requires prev == Index(map["b" := ENTRY], map["b" := OLD_BOOK], map["p" := Person("p", "")], map[])
    requires cand == EMPTY_INDEX
    ensures RetentionWhole(prev, cand) && !RetainedAreStamped(prev, cand, 1)
  {
    assert "b" in Gone(prev, cand);
    assert PersonRefs(OLD_BOOK) == ["p"] && FacetRefs(OLD_BOOK) == [];
  }
}
