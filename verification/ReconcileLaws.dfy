/** Laws of one reconciliation: when it succeeds, what its report partitions, that input
    order is immaterial, and what replaying a capture does. */
module ReconcileLaws {
  import opened Texts
  import opened Library
  import opened Reconcile

  ghost predicate Keyed(ix: Index) {
    && (forall x :: x in ix.entries ==> ix.entries[x].bookId == x)
    && (forall x :: x in ix.books ==> ix.books[x].bookId == x)
    && (forall x :: x in ix.people ==> ix.people[x].personId == x)
    && (forall x :: x in ix.facets ==> ix.facets[x].facetId == x)
  }

  ghost predicate BookCovered(b: Book, people: set<string>, facets: set<string>) {
    Covered(PersonRefs(b), people) && Covered(FacetRefs(b), facets)
  }

  ghost predicate WholeIndex(ix: Index) {
    && ix.entries.Keys <= ix.books.Keys
    && forall x :: x in ix.books ==> BookCovered(ix.books[x], ix.people.Keys, ix.facets.Keys)
  }

  /** A candidate that passes everything up to the first integrity check. */
  ghost predicate Acceptable(c: Snapshot) {
    c.observedAt.Some? && Whole(c.catalog, c.entries) && DistinctIds(c.entries, EntryId)
  }

  lemma IndexIsKeyed(s: Snapshot)
    ensures Keyed(IndexOf(s))
  {
    IndexKeys(s.entries, EntryId);
    IndexKeys(s.catalog.books, BookId);
    IndexKeys(s.catalog.people, PersonId);
    IndexKeys(s.catalog.facets, FacetId);
  }

  lemma WholeGivesWholeIndex(s: Snapshot)
    requires Whole(s.catalog, s.entries)
    ensures WholeIndex(IndexOf(s))
  {
    IndexKeys(s.entries, EntryId);
    IndexKeys(s.catalog.books, BookId);
    IndexKeys(s.catalog.people, PersonId);
    IndexKeys(s.catalog.facets, FacetId);
    var ix := IndexOf(s);
    forall x | x in ix.books ensures BookCovered(ix.books[x], ix.people.Keys, ix.facets.Keys) {
      var i :| 0 <= i < |s.catalog.books| && s.catalog.books[i] == ix.books[x];
    }
  }

  lemma IndexOfSnapshotOf(c: Snapshot, ix: Index)
    requires Keyed(ix)
    ensures IndexOf(SnapshotOf(c, ix)) == ix
    ensures DistinctIds(SnapshotOf(c, ix).entries, EntryId)
    ensures DistinctIds(SnapshotOf(c, ix).catalog.books, BookId)
  {
    IndexOfSortedValues(ix.entries, EntryId);
    IndexOfSortedValues(ix.books, BookId);
    IndexOfSortedValues(ix.people, PersonId);
    IndexOfSortedValues(ix.facets, FacetId);
  }

  lemma WholenessOfDistinct(s: Snapshot)
    requires DistinctIds(s.catalog.books, BookId)
    ensures Whole(s.catalog, s.entries) <==> WholeIndex(IndexOf(s))
  {
    if WholeIndex(IndexOf(s)) {
      IndexKeys(s.entries, EntryId);
      IndexKeys(s.catalog.books, BookId);
      IndexKeys(s.catalog.people, PersonId);
      IndexKeys(s.catalog.facets, FacetId);
      IndexOfDistinct(s.catalog.books, BookId);
      forall i | 0 <= i < |s.entries| ensures s.entries[i].bookId in Ids(s.catalog.books, BookId) {
        assert EntryId(s.entries[i]) in Ids(s.entries, EntryId);
      }
      forall i | 0 <= i < |s.catalog.books|
        ensures BookCovered(s.catalog.books[i], Ids(s.catalog.people, PersonId), Ids(s.catalog.facets, FacetId))
      {
        assert BookId(s.catalog.books[i]) in IndexOf(s).books;
      }
    }
    if Whole(s.catalog, s.entries) { WholeGivesWholeIndex(s); }
  }

  /** A promoted snapshot passes the final check exactly when its index is whole. */
  lemma WholeSnapshotOf(c: Snapshot, ix: Index)
    requires Keyed(ix)
    ensures Whole(SnapshotOf(c, ix).catalog, SnapshotOf(c, ix).entries) <==> WholeIndex(ix)
  {
    IndexOfSnapshotOf(c, ix);
    WholenessOfDistinct(SnapshotOf(c, ix));
  }

  // ---- The final check ----------------------------------------------------

  /** Every retained entry still has a book, and a book kept from the previous snapshot
      has its people and facets in one of the two snapshots. */
  ghost predicate RetentionWhole(prev: Index, cand: Index) {
    forall id :: id in Gone(prev, cand) ==>
      id in cand.books
      || (id in prev.books && BookCovered(prev.books[id], cand.people.Keys + prev.people.Keys,
                                          cand.facets.Keys + prev.facets.Keys))
  }

  lemma MergedIsKeyed(prev: Index, cand: Index, now: Instant, previousAt: Instant)
    requires Keyed(prev) && Keyed(cand)
    ensures Keyed(Merged(prev, cand, now, previousAt))
  {
  }

  lemma RefsAreCollected(books: map<string, Book>, ids: set<string>, id: string)
    requires id in ids && id in books
    ensures Covered(PersonRefs(books[id]), PersonRefsOf(books, ids))
    ensures Covered(FacetRefs(books[id]), FacetRefsOf(books, ids))
  {
    forall i | 0 <= i < |PersonRefs(books[id])| ensures PersonRefs(books[id])[i] in PersonRefsOf(books, ids) {
      assert PersonRefs(books[id])[i] in PersonRefs(books[id]);
    }
    forall i | 0 <= i < |FacetRefs(books[id])| ensures FacetRefs(books[id])[i] in FacetRefsOf(books, ids) {
      assert FacetRefs(books[id])[i] in FacetRefs(books[id]);
    }
  }

  lemma CoveredByExtension<T>(refs: seq<string>, have: map<string, T>, wanted: set<string>, from: map<string, T>)
    requires Covered(refs, wanted)
    ensures Covered(refs, Extended(have, wanted, from).Keys) <==> Covered(refs, have.Keys + from.Keys)
  {
    assert forall i :: 0 <= i < |refs| ==>
      (refs[i] in Extended(have, wanted, from).Keys <==> refs[i] in have.Keys + from.Keys);
  }

  lemma CoverageOfKeptBook(prev: Index, cand: Index, id: string, now: Instant, previousAt: Instant)
    requires id in Gone(prev, cand) && id in prev.books
    ensures
      var ix := Merged(prev, cand, now, previousAt);
      BookCovered(prev.books[id], ix.people.Keys, ix.facets.Keys) <==>
      BookCovered(prev.books[id], cand.people.Keys + prev.people.Keys, cand.facets.Keys + prev.facets.Keys)
  {
    var b, gone := prev.books[id], Gone(prev, cand);
    RefsAreCollected(prev.books, gone, id);
    CoveredByExtension(PersonRefs(b), cand.people, PersonRefsOf(prev.books, gone), prev.people);
    CoveredByExtension(FacetRefs(b), cand.facets, FacetRefsOf(prev.books, gone), prev.facets);
  }

  /** Coverage of each book of the merged library. */
  lemma CoverageOfMergedBook(prev: Index, cand: Index, x: string, now: Instant, previousAt: Instant)
    requires WholeIndex(cand) && x in Merged(prev, cand, now, previousAt).books
    ensures
      var ix := Merged(prev, cand, now, previousAt);
      BookCovered(ix.books[x], ix.people.Keys, ix.facets.Keys) <==>
      x in cand.books || BookCovered(prev.books[x], cand.people.Keys + prev.people.Keys, cand.facets.Keys + prev.facets.Keys)
  {
    if x in cand.books {
      assert BookCovered(cand.books[x], cand.people.Keys, cand.facets.Keys);
    } else {
      CoverageOfKeptBook(prev, cand, x, now, previousAt);
    }
  }

  lemma MergedWholeness(prev: Index, cand: Index, now: Instant, previousAt: Instant)
    requires WholeIndex(cand)
    ensures WholeIndex(Merged(prev, cand, now, previousAt)) <==> RetentionWhole(prev, cand)
  {
    var ix := Merged(prev, cand, now, previousAt);
    forall x | x in ix.books
      ensures BookCovered(ix.books[x], ix.people.Keys, ix.facets.Keys) <==>
              x in cand.books || BookCovered(prev.books[x], cand.people.Keys + prev.people.Keys, cand.facets.Keys + prev.facets.Keys)
    {
      CoverageOfMergedBook(prev, cand, x, now, previousAt);
    }
    assert ix.entries.Keys == cand.entries.Keys + Gone(prev, cand);
    assert ix.books.Keys == cand.books.Keys + Gone(prev, cand) * prev.books.Keys;
  }

  /** Past the first check, reconciliation fails exactly when the previous snapshot
      cannot support what must be retained from it. */
  lemma FinalCheckFailsExactly(previous: Option<Snapshot>, c: Snapshot)
    requires Acceptable(c)
    ensures Reconciliation(previous, Some(c), true).Ok? <==> RetentionWhole(PreviousIndex(previous), IndexOf(c))
  {
    var now := c.observedAt.value;
    var prev, cand, previousAt := PreviousIndex(previous), IndexOf(c), PreviousObservedAt(previous, now);
    IntegrityIsWholeness(c.catalog, c.entries);
    WholeGivesWholeIndex(c);
    IndexIsKeyed(c);
    if previous.Some? { IndexIsKeyed(previous.value); }
    var ix := Merged(prev, cand, now, previousAt);
    MergedIsKeyed(prev, cand, now, previousAt);
    MergedWholeness(prev, cand, now, previousAt);
    WholeSnapshotOf(c, ix);
    IntegrityIsWholeness(SnapshotOf(c, ix).catalog, SnapshotOf(c, ix).entries);
  }

  lemma WholePreviousSupports(previous: Snapshot, cand: Index)
    requires Whole(previous.catalog, previous.entries)
    ensures RetentionWhole(IndexOf(previous), cand)
  {
    var prev := IndexOf(previous);
    WholeGivesWholeIndex(previous);
    forall id | id in Gone(prev, cand)
      ensures id in prev.books
      ensures BookCovered(prev.books[id], cand.people.Keys + prev.people.Keys, cand.facets.Keys + prev.facets.Keys)
    {
      assert BookCovered(prev.books[id], prev.people.Keys, prev.facets.Keys);
    }
  }

  /** What passed the final check is whole. */
  lemma PromotedIsWhole(previous: Option<Snapshot>, c: Snapshot)
    requires Reconciliation(previous, Some(c), true).Ok?
    ensures var s := Reconciliation(previous, Some(c), true).value.snapshot;
      Whole(s.catalog, s.entries) && s.observedAt == c.observedAt
  {
    var s := Reconciliation(previous, Some(c), true).value.snapshot;
    IntegrityIsWholeness(s.catalog, s.entries);
  }

  /** With a referentially whole previous snapshot the final check is dead, and the
      promoted snapshot is whole again. */
  lemma WholePreviousNeverFails(previous: Option<Snapshot>, c: Snapshot)
    requires Acceptable(c)
    requires previous.Some? ==> Whole(previous.value.catalog, previous.value.entries)
    ensures Reconciliation(previous, Some(c), true).Ok?
    ensures
      var s := Reconciliation(previous, Some(c), true).value.snapshot;
      Whole(s.catalog, s.entries) && DistinctIds(s.entries, EntryId) && s.observedAt == c.observedAt
  {
    assert RetentionWhole(PreviousIndex(previous), IndexOf(c)) by {
      if previous.Some? { WholePreviousSupports(previous.value, IndexOf(c)); }
    }
    FinalCheckFailsExactly(previous, c);
    PromotedIsWhole(previous, c);
    ResultIndex(previous, c);
  }

  lemma ResultSnapshot(previous: Option<Snapshot>, c: Snapshot)
    requires Acceptable(c) && Reconciliation(previous, Some(c), true).Ok?
    ensures
      var now := c.observedAt.value;
      var prev, cand := PreviousIndex(previous), IndexOf(c);
      Reconciliation(previous, Some(c), true).value ==
        Reconciled(SnapshotOf(c, Merged(prev, cand, now, PreviousObservedAt(previous, now))), ReportOf(prev, cand, now))
  {
    IntegrityIsWholeness(c.catalog, c.entries);
  }

  /** The promoted snapshot, by id. */
  lemma ResultIndex(previous: Option<Snapshot>, c: Snapshot)
    requires Acceptable(c) && Reconciliation(previous, Some(c), true).Ok?
    ensures
      var now := c.observedAt.value;
      var ix := Merged(PreviousIndex(previous), IndexOf(c), now, PreviousObservedAt(previous, now));
      var s := Reconciliation(previous, Some(c), true).value.snapshot;
      s == SnapshotOf(c, ix) && IndexOf(s) == ix && DistinctIds(s.entries, EntryId)
  {
    var now := c.observedAt.value;
    ResultSnapshot(previous, c);
    IndexIsKeyed(c);
    if previous.Some? { IndexIsKeyed(previous.value); }
    var ix := Merged(PreviousIndex(previous), IndexOf(c), now, PreviousObservedAt(previous, now));
    MergedIsKeyed(PreviousIndex(previous), IndexOf(c), now, PreviousObservedAt(previous, now));
    IndexOfSnapshotOf(c, ix);
  }

  // ---- The report ---------------------------------------------------------

  ghost predicate Partitions(a: set<string>, b: set<string>, c: set<string>, d: set<string>, all: set<string>) {
    a !! b !! c !! d && a + b + c + d == all
  }

  lemma PartitionSizes(a: set<string>, b: set<string>, c: set<string>, d: set<string>, all: set<string>)
    requires Partitions(a, b, c, d, all)
    ensures |a| + |b| + |c| + |d| == |all|
  {
    assert all == a + b + c + d;
  }

  lemma IdsPartitioned(prev: Index, cand: Index)
    ensures Partitions(AddedIds(prev, cand), UpdatedIds(prev, cand), ReappearedIds(prev, cand), Gone(prev, cand),
                       cand.entries.Keys + prev.entries.Keys)
  {
  }

  lemma ReportListsIds(prev: Index, cand: Index, now: Instant)
    ensures
      var r := ReportOf(prev, cand, now);
      && AsSet(r.added) == AddedIds(prev, cand) && AsSet(r.updated) == UpdatedIds(prev, cand)
      && AsSet(r.reappeared) == ReappearedIds(prev, cand) && AsSet(r.missingFromSource) == Gone(prev, cand)
  {
    AsSetOfSortedIds(AddedIds(prev, cand));
    AsSetOfSortedIds(UpdatedIds(prev, cand));
    AsSetOfSortedIds(ReappearedIds(prev, cand));
    AsSetOfSortedIds(Gone(prev, cand));
  }

  lemma ReportPartitionsIds(prev: Index, cand: Index, now: Instant)
    ensures
      var r, all := ReportOf(prev, cand, now), cand.entries.Keys + prev.entries.Keys;
      && Partitions(AsSet(r.added), AsSet(r.updated), AsSet(r.reappeared), AsSet(r.missingFromSource), all)
      && |r.added| + |r.updated| + |r.reappeared| + |r.missingFromSource| == r.entryCount == |all|
  {
    ReportListsIds(prev, cand, now);
    IdsPartitioned(prev, cand);
    PartitionSizes(AddedIds(prev, cand), UpdatedIds(prev, cand), ReappearedIds(prev, cand), Gone(prev, cand),
                   cand.entries.Keys + prev.entries.Keys);
  }

  /** added, updated, reappeared and missingFromSource list every entry of the promoted
      snapshot exactly once, and their lengths add up to entryCount. */
  lemma ReportPartitionsEntries(previous: Option<Snapshot>, c: Snapshot)
    requires Acceptable(c) && Reconciliation(previous, Some(c), true).Ok?
    ensures
      var r := Reconciliation(previous, Some(c), true).value;
      && Partitions(AsSet(r.report.added), AsSet(r.report.updated), AsSet(r.report.reappeared),
                    AsSet(r.report.missingFromSource), IndexOf(r.snapshot).entries.Keys)
      && |r.report.added| + |r.report.updated| + |r.report.reappeared| + |r.report.missingFromSource|
         == r.report.entryCount == |r.snapshot.entries|
  {
    var prev, cand, now := PreviousIndex(previous), IndexOf(c), c.observedAt.value;
    ResultSnapshot(previous, c);
    ResultIndex(previous, c);
    ReportPartitionsIds(prev, cand, now);
    MergedSize(prev, cand, now, PreviousObservedAt(previous, now));
    MergedIds(prev, cand, now, PreviousObservedAt(previous, now));
  }

  lemma MergedIds(prev: Index, cand: Index, now: Instant, previousAt: Instant)
    ensures Merged(prev, cand, now, previousAt).entries.Keys == cand.entries.Keys + prev.entries.Keys
  {
  }

  // ---- Input order --------------------------------------------------------

  ghost predicate Rearranged<T>(a: seq<T>, b: seq<T>, id: T -> string) {
    DistinctIds(a, id) && DistinctIds(b, id) && multiset(a) == multiset(b)
  }

  ghost predicate SameRecords(a: Snapshot, b: Snapshot) {
    && a.observedAt == b.observedAt && a.header == b.header
    && Rearranged(a.entries, b.entries, EntryId)
    && Rearranged(a.catalog.books, b.catalog.books, BookId)
    && Rearranged(a.catalog.people, b.catalog.people, PersonId)
    && Rearranged(a.catalog.facets, b.catalog.facets, FacetId)
  }

  lemma SameRecordsSameIndex(a: Snapshot, b: Snapshot)
    requires SameRecords(a, b)
    ensures IndexOf(a) == IndexOf(b)
  {
    IndexOfRearranged(a.entries, b.entries, EntryId);
    IndexOfRearranged(a.catalog.books, b.catalog.books, BookId);
    IndexOfRearranged(a.catalog.people, b.catalog.people, PersonId);
    IndexOfRearranged(a.catalog.facets, b.catalog.facets, FacetId);
  }

  ghost predicate SamePrevious(p: Option<Snapshot>, p': Option<Snapshot>) {
    (p.None? && p'.None?) || (p.Some? && p'.Some? && SameRecords(p.value, p'.value))
  }

  lemma SameAcceptance(c: Snapshot, c': Snapshot)
    requires SameRecords(c, c')
    ensures Acceptable(c) <==> Acceptable(c')
  {
    SameRecordsSameIndex(c, c');
    WholenessOfDistinct(c);
    WholenessOfDistinct(c');
  }

  lemma ReconciledIsAcceptable(previous: Option<Snapshot>, c: Snapshot)
    ensures Reconciliation(previous, Some(c), true).Ok? ==> Acceptable(c)
  {
    IntegrityIsWholeness(c.catalog, c.entries);
  }

  /** Rearranging the arrays of either snapshot changes neither whether reconciliation
      succeeds nor anything it returns; a first import has no previous snapshot. */
  lemma InputOrderIsImmaterial(p: Option<Snapshot>, p': Option<Snapshot>, c: Snapshot, c': Snapshot)
    requires SamePrevious(p, p') && SameRecords(c, c')
    ensures
      var r, r' := Reconciliation(p, Some(c), true), Reconciliation(p', Some(c'), true);
      (r.Ok? <==> r'.Ok?) && (r.Ok? ==> r == r')
  {
    if p.Some? { SameRecordsSameIndex(p.value, p'.value); }
    SameRecordsSameIndex(c, c');
    SameAcceptance(c, c');
    ReconciledIsAcceptable(p, c);
    ReconciledIsAcceptable(p', c');
    if Acceptable(c) {
      FinalCheckFailsExactly(p, c);
      FinalCheckFailsExactly(p', c');
      if Reconciliation(p, Some(c), true).Ok? {
        ResultSnapshot(p, c);
        ResultSnapshot(p', c');
        assert c.(catalog := c'.catalog, entries := c'.entries) == c';
      }
    }
  }
}
