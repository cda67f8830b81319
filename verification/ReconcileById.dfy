/** The promoted snapshot and its report, book by book and field by field: what
    `reconcileSnapshot` of src/sync/reconcile.js leaves of both snapshots. */
module ReconcileById {
  import opened Texts
  import opened Library
  import opened Reconcile
  import opened ReconcileLaws
  import opened ReconcileRuns

  function Entries(s: Option<Snapshot>): map<string, Entry> {
    if s.None? then map[] else IndexBy(s.value.entries, EntryId)
  }

  function Books(s: Option<Snapshot>): map<string, Book> {
    if s.None? then map[] else IndexBy(s.value.catalog.books, BookId)
  }

  function People(s: Option<Snapshot>): map<string, Person> {
    if s.None? then map[] else IndexBy(s.value.catalog.people, PersonId)
  }

  function Facets(s: Option<Snapshot>): map<string, Facet> {
    if s.None? then map[] else IndexBy(s.value.catalog.facets, FacetId)
  }

  lemma PreviousByMaps(s: Option<Snapshot>)
    ensures PreviousIndex(s) == Index(Entries(s), Books(s), People(s), Facets(s))
  {
  }

  ghost predicate Promotes(previous: Option<Snapshot>, c: Snapshot, r: Reconciled) {
    Reconciliation(previous, Some(c), true) == Ok(r)
  }

  function Unlisted(previous: Option<Snapshot>, c: Snapshot): set<string> {
    Entries(previous).Keys - Entries(Some(c)).Keys
  }

  lemma PromotedMaps(previous: Option<Snapshot>, c: Snapshot, r: Reconciled)
    requires Promotes(previous, c, r)
    ensures Acceptable(c)
    ensures
      var now, unlisted := c.observedAt.value, Unlisted(previous, c);
      && Entries(Some(r.snapshot))
           == EntriesWith(Entries(previous), Entries(Some(c)), unlisted, now, PreviousObservedAt(previous, now))
      && Books(Some(r.snapshot)) == Extended(Books(Some(c)), unlisted, Books(previous))
      && People(Some(r.snapshot)) == Extended(People(Some(c)), PersonRefsOf(Books(previous), unlisted), People(previous))
      && Facets(Some(r.snapshot)) == Extended(Facets(Some(c)), FacetRefsOf(Books(previous), unlisted), Facets(previous))
      && r.report == ReportOf(PreviousIndex(previous), IndexOf(c), now)
  {
    ReconciledIsAcceptable(previous, c);
    ResultSnapshot(previous, c);
    ResultIndex(previous, c);
    PreviousByMaps(Some(r.snapshot));
    PreviousByMaps(previous);
    PreviousByMaps(Some(c));
  }

  // ---- Entries -------------------------------------------------------------------

  /** The last proof that the source listed a book it no longer lists. */
  function LastProof(e: Entry, previous: Snapshot, now: Instant): Option<Instant> {
    if e.lastSeenAt.Some? then e.lastSeenAt
    else if e.sourceObservedAt.Some? then e.sourceObservedAt
    else if previous.observedAt.Some? then previous.observedAt
    else Some(now)
  }

  /** Listed books as the capture has them, seen now; unlisted ones as they were, flagged, last
      seen at their last proof. */
  ghost predicate CarriesEntries(after: map<string, Entry>, before: map<string, Entry>, listed: map<string, Entry>,
                                 previous: Option<Snapshot>, now: Instant)
    requires previous.None? ==> before == map[]
  {
    && after.Keys == before.Keys + listed.Keys
    && (forall id :: id in listed ==> after[id] == Entry(
          listed[id].bookId, listed[id].facts, listed[id].provenance, listed[id].lastSyncedAt, Some(now), Some(now), false))
    && (forall id :: id in before && id !in listed ==> after[id] == Entry(
          before[id].bookId, before[id].facts, before[id].provenance, before[id].lastSyncedAt, Some(now),
          LastProof(before[id], previous.value, now), true))
  }

  lemma EntriesAreCarried(before: map<string, Entry>, listed: map<string, Entry>, previous: Option<Snapshot>, now: Instant)
    requires previous.None? ==> before == map[]
    ensures CarriesEntries(EntriesWith(before, listed, before.Keys - listed.Keys, now, PreviousObservedAt(previous, now)),
                           before, listed, previous, now)
  {
    var after := EntriesWith(before, listed, before.Keys - listed.Keys, now, PreviousObservedAt(previous, now));
    assert after.Keys == before.Keys + listed.Keys;
  }

  /** Exactly the books either snapshot lists are listed, each as said. */
  lemma PromotedEntries(previous: Option<Snapshot>, c: Snapshot, r: Reconciled)
    requires Promotes(previous, c, r)
    ensures c.observedAt.Some?
    ensures CarriesEntries(Entries(Some(r.snapshot)), Entries(previous), Entries(Some(c)), previous, c.observedAt.value)
  {
    PromotedMaps(previous, c, r);
    EntriesAreCarried(Entries(previous), Entries(Some(c)), previous, c.observedAt.value);
  }

  // ---- The catalog -----------------------------------------------------------------

  /** The book is missing from the capture's list and was in the previous catalog. */
  predicate RetainsBook(previous: Option<Snapshot>, c: Snapshot, id: string) {
    id in Entries(previous) && id !in Entries(Some(c)) && id in Books(previous)
  }

  /** A retained book credits the person, as author or as narrator. */
  ghost predicate RetainsPerson(previous: Option<Snapshot>, c: Snapshot, person: string) {
    exists id :: RetainsBook(previous, c, id)
      && (person in Books(previous)[id].authorIds || person in Books(previous)[id].narratorIds)
  }

  /** A retained book carries the facet, as genre, as theme or as its series. */
  ghost predicate RetainsFacet(previous: Option<Snapshot>, c: Snapshot, facet: string) {
    exists id :: RetainsBook(previous, c, id)
      && (facet in Books(previous)[id].genreIds || facet in Books(previous)[id].themeIds
          || (facet != "" && facet == Books(previous)[id].seriesId))
  }

  lemma WantedPeople(previous: Option<Snapshot>, c: Snapshot, person: string)
    ensures person in PersonRefsOf(Books(previous), Unlisted(previous, c))
       <==> RetainsPerson(previous, c, person)
  {
    var books, gone := Books(previous), Unlisted(previous, c);
    if person in PersonRefsOf(books, gone) {
      var id :| id in gone && id in books && person in PersonRefs(books[id]);
      RefsByField(books[id]);
      assert RetainsBook(previous, c, id);
    }
    if RetainsPerson(previous, c, person) {
      var id :| RetainsBook(previous, c, id) && (person in books[id].authorIds || person in books[id].narratorIds);
      RefsByField(books[id]);
      assert id in gone;
    }
  }

  lemma WantedFacets(previous: Option<Snapshot>, c: Snapshot, facet: string)
    ensures facet in FacetRefsOf(Books(previous), Unlisted(previous, c))
       <==> RetainsFacet(previous, c, facet)
  {
    var books, gone := Books(previous), Unlisted(previous, c);
    if facet in FacetRefsOf(books, gone) {
      var id :| id in gone && id in books && facet in FacetRefs(books[id]);
      RefsByField(books[id]);
      assert RetainsBook(previous, c, id);
    }
    if RetainsFacet(previous, c, facet) {
      var id :| RetainsBook(previous, c, id)
        && (facet in books[id].genreIds || facet in books[id].themeIds || (facet != "" && facet == books[id].seriesId));
      RefsByField(books[id]);
      assert id in gone;
    }
  }

  /** The capture's records stand as they are; of the previous ones exactly the retained books
      and what they refer to join them. */
  ghost predicate Joins<T>(after: map<string, T>, ours: map<string, T>, theirs: map<string, T>, wanted: iset<string>) {
    && (forall id :: id in after <==> id in ours || (id in theirs && id in wanted))
    && (forall id :: id in after ==> after[id] == if id in ours then ours[id] else theirs[id])
  }

  lemma ExtendedJoins<T>(ours: map<string, T>, theirs: map<string, T>, wanted: set<string>, named: iset<string>)
    requires forall id :: id in theirs ==> (id in wanted <==> id in named)
    ensures Joins(Extended(ours, wanted, theirs), ours, theirs, named)
  {
  }

  lemma PromotedBooks(previous: Option<Snapshot>, c: Snapshot, r: Reconciled)
    requires Promotes(previous, c, r)
    ensures Joins(Books(Some(r.snapshot)), Books(Some(c)), Books(previous), iset id | RetainsBook(previous, c, id))
  {
    PromotedMaps(previous, c, r);
    ExtendedJoins(Books(Some(c)), Books(previous), Unlisted(previous, c), iset id | RetainsBook(previous, c, id));
  }

  lemma PromotedPeople(previous: Option<Snapshot>, c: Snapshot, r: Reconciled)
    requires Promotes(previous, c, r)
    ensures Joins(People(Some(r.snapshot)), People(Some(c)), People(previous), iset id | RetainsPerson(previous, c, id))
  {
    PromotedMaps(previous, c, r);
    var wanted, named := PersonRefsOf(Books(previous), Unlisted(previous, c)), iset id | RetainsPerson(previous, c, id);
    forall id | id in People(previous) ensures id in wanted <==> id in named { WantedPeople(previous, c, id); }
    ExtendedJoins(People(Some(c)), People(previous), wanted, named);
  }

  lemma PromotedFacets(previous: Option<Snapshot>, c: Snapshot, r: Reconciled)
    requires Promotes(previous, c, r)
    ensures Joins(Facets(Some(r.snapshot)), Facets(Some(c)), Facets(previous), iset id | RetainsFacet(previous, c, id))
  {
    PromotedMaps(previous, c, r);
    var wanted, named := FacetRefsOf(Books(previous), Unlisted(previous, c)), iset id | RetainsFacet(previous, c, id);
    forall id | id in Facets(previous) ensures id in wanted <==> id in named { WantedFacets(previous, c, id); }
    ExtendedJoins(Facets(Some(c)), Facets(previous), wanted, named);
  }

  /** Whatever is promoted, every author, narrator, genre, theme and series it names is there;
      and so it was in the capture. */
  lemma PromotedReferencesResolve(previous: Option<Snapshot>, c: Snapshot, r: Reconciled)
    requires Promotes(previous, c, r)
    ensures ReferencesResolve(r.snapshot.catalog, r.snapshot.entries) && ReferencesResolve(c.catalog, c.entries)
  {
    PromotedIsWhole(previous, c);
    ReconciledIsAcceptable(previous, c);
    WholeByField(r.snapshot.catalog, r.snapshot.entries);
    WholeByField(c.catalog, c.entries);
  }

  /** Over every run of captures the library has everything it names. */
  lemma LibraryReferencesResolve(captures: seq<Capture>, k: nat)
    requires k <= |captures| && LibraryAfter(captures, k).Some?
    ensures ReferencesResolve(LibraryAfter(captures, k).value.catalog, LibraryAfter(captures, k).value.entries)
  {
    LibraryIsAlwaysWhole(captures, k);
    WholeByField(LibraryAfter(captures, k).value.catalog, LibraryAfter(captures, k).value.entries);
  }

  // ---- The report ---------------------------------------------------------------------

  /** In which list of the report a book is: new, known and not missed, known and missed, no
      longer listed; and which books came from the previous catalog. */
  lemma PromotedReport(previous: Option<Snapshot>, c: Snapshot, r: Reconciled)
    requires Promotes(previous, c, r)
    ensures
      var before, listed := Entries(previous), Entries(Some(c));
      && (forall id :: id in r.report.added <==> id in listed && id !in before)
      && (forall id :: id in r.report.updated <==> id in listed && id in before && !before[id].missingFromSource)
      && (forall id :: id in r.report.reappeared <==> id in listed && id in before && before[id].missingFromSource)
      && (forall id :: id in r.report.missingFromSource <==> id in before && id !in listed)
      && (forall id :: id in r.report.retainedCatalogBooks <==> RetainsBook(previous, c, id) && id !in Books(Some(c)))
      && c.observedAt == Some(r.report.observedAt) && r.report.entryCount == |r.snapshot.entries|
  {
    PromotedMaps(previous, c, r);
    ReportPartitionsEntries(previous, c);
    PreviousByMaps(previous);
    PreviousByMaps(Some(c));
    ReportById(PreviousIndex(previous), IndexOf(c), c.observedAt.value);
  }

  lemma ReportById(prev: Index, cand: Index, now: Instant)
    ensures
      var r, before, listed := ReportOf(prev, cand, now), prev.entries, cand.entries;
      && (forall id :: id in r.added <==> id in listed && id !in before)
      && (forall id :: id in r.updated <==> id in listed && id in before && !before[id].missingFromSource)
      && (forall id :: id in r.reappeared <==> id in listed && id in before && before[id].missingFromSource)
      && (forall id :: id in r.missingFromSource <==> id in before && id !in listed)
      && (forall id :: id in r.retainedCatalogBooks <==> id in before && id !in listed && id in prev.books && id !in cand.books)
  {
    SortedIdsElements(AddedIds(prev, cand));
    SortedIdsElements(UpdatedIds(prev, cand));
    SortedIdsElements(ReappearedIds(prev, cand));
    SortedIdsElements(Gone(prev, cand));
    SortedIdsElements((Gone(prev, cand) * prev.books.Keys) - cand.books.Keys);
  }

  /** Everything comes in the order of ids, and the rest of the capture is kept. */
  lemma PromotedInOrder(previous: Option<Snapshot>, c: Snapshot, r: Reconciled)
    requires Promotes(previous, c, r)
    ensures r.snapshot.observedAt == c.observedAt && r.snapshot.header == c.header
    ensures forall i, j :: 0 <= i < j < |r.snapshot.entries| ==> Less(r.snapshot.entries[i].bookId, r.snapshot.entries[j].bookId)
    ensures forall i, j :: 0 <= i < j < |r.snapshot.catalog.books| ==>
      Less(r.snapshot.catalog.books[i].bookId, r.snapshot.catalog.books[j].bookId)
    ensures forall i, j :: 0 <= i < j < |r.snapshot.catalog.people| ==>
      Less(r.snapshot.catalog.people[i].personId, r.snapshot.catalog.people[j].personId)
    ensures forall i, j :: 0 <= i < j < |r.snapshot.catalog.facets| ==>
      Less(r.snapshot.catalog.facets[i].facetId, r.snapshot.catalog.facets[j].facetId)
    ensures Ascending(r.report.added) && Ascending(r.report.updated) && Ascending(r.report.reappeared)
      && Ascending(r.report.missingFromSource) && Ascending(r.report.retainedCatalogBooks)
  {
    ReconciledIsAcceptable(previous, c);
    ResultSnapshot(previous, c);
    ResultIndex(previous, c);
    IndexIsKeyed(r.snapshot);
    var ix := IndexOf(r.snapshot);
    ValuesAscend(ix.entries, EntryId);
    ValuesAscend(ix.books, BookId);
    ValuesAscend(ix.people, PersonId);
    ValuesAscend(ix.facets, FacetId);
    ReportAscends(PreviousIndex(previous), IndexOf(c), c.observedAt.value);
  }

  lemma ValuesAscend<T>(m: map<string, T>, id: T -> string)
    requires forall x :: x in m ==> id(m[x]) == x
    ensures forall i, j :: 0 <= i < j < |SortedValues(m)| ==> Less(id(SortedValues(m)[i]), id(SortedValues(m)[j]))
  {
    SortedValuesAt(m);
    SortedIdsAscending(m.Keys);
  }

  lemma ReportAscends(prev: Index, cand: Index, now: Instant)
    ensures var r := ReportOf(prev, cand, now);
      && Ascending(r.added) && Ascending(r.updated) && Ascending(r.reappeared)
      && Ascending(r.missingFromSource) && Ascending(r.retainedCatalogBooks)
  {
    SortedIdsAscending(AddedIds(prev, cand));
    SortedIdsAscending(UpdatedIds(prev, cand));
    SortedIdsAscending(ReappearedIds(prev, cand));
    SortedIdsAscending(Gone(prev, cand));
    SortedIdsAscending((Gone(prev, cand) * prev.books.Keys) - cand.books.Keys);
  }
}
