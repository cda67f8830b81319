/** Reconciling a complete capture with the last complete snapshot: src/sync/reconcile.js. */
module Reconcile {
  import opened Texts
  import opened Library

  datatype ReconcileError =
    | IncompleteCaptureNotReconcilable | CandidateInvalid | ObservedAtInvalid
    | EntryBookMissing | BookPersonMissing | BookFacetMissing | CandidateDuplicateEntry

  datatype Report = Report(
    added: seq<string>, updated: seq<string>, reappeared: seq<string>,
    missingFromSource: seq<string>, retainedCatalogBooks: seq<string>,
    observedAt: Instant, entryCount: nat)

  datatype Reconciled = Reconciled(snapshot: Snapshot, report: Report)

  function PersonRefs(b: Book): seq<string> { b.authorIds + b.narratorIds }

  function FacetRefs(b: Book): seq<string> {
    b.genreIds + b.themeIds + if b.seriesId != "" then [b.seriesId] else []
  }

  // ---- Referential integrity ----------------------------------------------

  predicate Covered(refs: seq<string>, ids: set<string>) {
    forall i :: 0 <= i < |refs| ==> refs[i] in ids
  }

  /** Every entry has its book, and every book its people and facets. */
  ghost predicate Whole(c: Catalog, entries: seq<Entry>) {
    && (forall i :: 0 <= i < |entries| ==> entries[i].bookId in Ids(c.books, BookId))
    && (forall i :: 0 <= i < |c.books| ==>
          && Covered(PersonRefs(c.books[i]), Ids(c.people, PersonId))
          && Covered(FacetRefs(c.books[i]), Ids(c.facets, FacetId)))
  }

  function FirstBookError(books: seq<Book>, people: set<string>, facets: set<string>): Option<ReconcileError> {
    if books == [] then None
    else if !Covered(PersonRefs(books[0]), people) then Some(BookPersonMissing)
    else if !Covered(FacetRefs(books[0]), facets) then Some(BookFacetMissing)
    else FirstBookError(books[1..], people, facets)
  }

  ghost function IntegrityError(c: Catalog, entries: seq<Entry>): Option<ReconcileError> {
    if exists i :: 0 <= i < |entries| && entries[i].bookId !in Ids(c.books, BookId) then Some(EntryBookMissing)
    else FirstBookError(c.books, Ids(c.people, PersonId), Ids(c.facets, FacetId))
  }

  lemma {:induction false} FirstBookErrorNone(books: seq<Book>, people: set<string>, facets: set<string>)
    ensures FirstBookError(books, people, facets).None? <==>
      forall i :: 0 <= i < |books| ==> Covered(PersonRefs(books[i]), people) && Covered(FacetRefs(books[i]), facets)
  {
    if books == [] {
    } else {
      FirstBookErrorNone(books[1..], people, facets);
      assert forall i :: 0 < i < |books| ==> books[i] == books[1..][i - 1];
      assert forall i :: 0 <= i < |books| - 1 ==> books[1..][i] == books[i + 1];
    }
  }

  lemma IntegrityIsWholeness(c: Catalog, entries: seq<Entry>)
    ensures IntegrityError(c, entries).None? <==> Whole(c, entries)
  {
    FirstBookErrorNone(c.books, Ids(c.people, PersonId), Ids(c.facets, FacetId));
  }

  // ---- The same, field by field --------------------------------------------

  ghost predicate HasBook(c: Catalog, id: string) { exists i :: 0 <= i < |c.books| && c.books[i].bookId == id }
  ghost predicate HasPerson(c: Catalog, id: string) { exists i :: 0 <= i < |c.people| && c.people[i].personId == id }
  ghost predicate HasFacet(c: Catalog, id: string) { exists i :: 0 <= i < |c.facets| && c.facets[i].facetId == id }

  ghost predicate PeopleResolve(c: Catalog, b: Book) {
    && (forall id :: id in b.authorIds ==> HasPerson(c, id))
    && (forall id :: id in b.narratorIds ==> HasPerson(c, id))
  }

  ghost predicate FacetsResolve(c: Catalog, b: Book) {
    && (forall id :: id in b.genreIds ==> HasFacet(c, id))
    && (forall id :: id in b.themeIds ==> HasFacet(c, id))
    && (b.seriesId != "" ==> HasFacet(c, b.seriesId))
  }

  /** Every entry has its book, and every author, narrator, genre, theme and series of a book is
      in the catalog. */
  ghost predicate ReferencesResolve(c: Catalog, entries: seq<Entry>) {
    && (forall i :: 0 <= i < |entries| ==> HasBook(c, entries[i].bookId))
    && (forall i :: 0 <= i < |c.books| ==> PeopleResolve(c, c.books[i]) && FacetsResolve(c, c.books[i]))
  }

  lemma CatalogIds(c: Catalog)
    ensures forall id :: id in Ids(c.books, BookId) <==> HasBook(c, id)
    ensures forall id :: id in Ids(c.people, PersonId) <==> HasPerson(c, id)
    ensures forall id :: id in Ids(c.facets, FacetId) <==> HasFacet(c, id)
  {
    forall id | HasBook(c, id) ensures id in Ids(c.books, BookId) {
      var i :| 0 <= i < |c.books| && c.books[i].bookId == id;
      assert BookId(c.books[i]) == id;
    }
    forall id | HasPerson(c, id) ensures id in Ids(c.people, PersonId) {
      var i :| 0 <= i < |c.people| && c.people[i].personId == id;
      assert PersonId(c.people[i]) == id;
    }
    forall id | HasFacet(c, id) ensures id in Ids(c.facets, FacetId) {
      var i :| 0 <= i < |c.facets| && c.facets[i].facetId == id;
      assert FacetId(c.facets[i]) == id;
    }
  }

  /** What a book refers to. */
  lemma RefsByField(b: Book)
    ensures forall id :: id in PersonRefs(b) <==> id in b.authorIds || id in b.narratorIds
    ensures forall id :: id in FacetRefs(b) <==> id in b.genreIds || id in b.themeIds || (id == b.seriesId && id != "")
  {
  }

  lemma CoveredExactly(refs: seq<string>, ids: set<string>)
    ensures Covered(refs, ids) <==> forall id :: id in refs ==> id in ids
  {
    assert forall i :: 0 <= i < |refs| ==> refs[i] in refs;
  }

  lemma BookByField(c: Catalog, b: Book)
    ensures Covered(PersonRefs(b), Ids(c.people, PersonId)) <==> PeopleResolve(c, b)
    ensures Covered(FacetRefs(b), Ids(c.facets, FacetId)) <==> FacetsResolve(c, b)
  {
    CatalogIds(c);
    RefsByField(b);
    CoveredExactly(PersonRefs(b), Ids(c.people, PersonId));
    CoveredExactly(FacetRefs(b), Ids(c.facets, FacetId));
  }

  lemma WholeByField(c: Catalog, entries: seq<Entry>)
    ensures Whole(c, entries) <==> ReferencesResolve(c, entries)
  {
    CatalogIds(c);
    forall i | 0 <= i < |c.books|
      ensures Covered(PersonRefs(c.books[i]), Ids(c.people, PersonId)) <==> PeopleResolve(c, c.books[i])
      ensures Covered(FacetRefs(c.books[i]), Ids(c.facets, FacetId)) <==> FacetsResolve(c, c.books[i])
    {
      BookByField(c, c.books[i]);
    }
  }

  /** The first book with a missing reference decides, and its people come before its facets. */
  ghost predicate FirstUnresolved(c: Catalog, i: nat, error: ReconcileError) {
    && i < |c.books|
    && (forall j :: 0 <= j < i ==> PeopleResolve(c, c.books[j]) && FacetsResolve(c, c.books[j]))
    && (if PeopleResolve(c, c.books[i]) then error == BookFacetMissing && !FacetsResolve(c, c.books[i])
        else error == BookPersonMissing)
  }

  lemma {:induction false} FirstBookErrorAt(books: seq<Book>, people: set<string>, facets: set<string>) returns (i: nat)
    requires FirstBookError(books, people, facets).Some?
    ensures i < |books|
    ensures forall j :: 0 <= j < i ==> Covered(PersonRefs(books[j]), people) && Covered(FacetRefs(books[j]), facets)
    ensures FirstBookError(books, people, facets).value ==
      if Covered(PersonRefs(books[i]), people) then BookFacetMissing else BookPersonMissing
    ensures !Covered(PersonRefs(books[i]), people) || !Covered(FacetRefs(books[i]), facets)
  {
    if !Covered(PersonRefs(books[0]), people) || !Covered(FacetRefs(books[0]), facets) {
      i := 0;
    } else {
      var k := FirstBookErrorAt(books[1..], people, facets);
      i := k + 1;
      assert books[1..][k] == books[i];
      assert forall j :: 0 < j < i ==> books[1..][j - 1] == books[j];
    }
  }

  /** Which reference is reported. */
  lemma IntegrityErrorByField(c: Catalog, entries: seq<Entry>)
    ensures IntegrityError(c, entries).None? <==> ReferencesResolve(c, entries)
    ensures IntegrityError(c, entries) == Some(EntryBookMissing) <==>
      exists i :: 0 <= i < |entries| && !HasBook(c, entries[i].bookId)
    ensures IntegrityError(c, entries).Some? && IntegrityError(c, entries) != Some(EntryBookMissing) ==>
      exists i :: FirstUnresolved(c, i, IntegrityError(c, entries).value)
  {
    IntegrityIsWholeness(c, entries);
    WholeByField(c, entries);
    CatalogIds(c);
    var people, facets := Ids(c.people, PersonId), Ids(c.facets, FacetId);
    if forall i :: 0 <= i < |entries| ==> entries[i].bookId in Ids(c.books, BookId) {
      if FirstBookError(c.books, people, facets).Some? {
        var i := FirstBookErrorAt(c.books, people, facets);
        forall j | 0 <= j <= i
          ensures Covered(PersonRefs(c.books[j]), people) <==> PeopleResolve(c, c.books[j])
          ensures Covered(FacetRefs(c.books[j]), facets) <==> FacetsResolve(c, c.books[j])
        {
          BookByField(c, c.books[j]);
        }
        assert FirstUnresolved(c, i, FirstBookError(c.books, people, facets).value);
      }
    }
  }

  method AllPresent<T>(refs: seq<string>, index: map<string, T>) returns (present: bool)
    ensures present == Covered(refs, index.Keys)
  {
    for j := 0 to |refs|
      invariant Covered(refs[..j], index.Keys)
    {
      assert refs[..j + 1] == refs[..j] + [refs[j]];
      if refs[j] !in index { return false; }
    }
    assert refs[..|refs|] == refs;
    present := true;
  }

  method FindBookError(books: seq<Book>, people: map<string, Person>, facets: map<string, Facet>)
    returns (r: Option<ReconcileError>)
    ensures r == FirstBookError(books, people.Keys, facets.Keys)
  {
    for i := 0 to |books|
      invariant FirstBookError(books, people.Keys, facets.Keys)
             == FirstBookError(books[i..], people.Keys, facets.Keys)
    {
      var book := books[i];
      assert books[i..][1..] == books[i + 1..];
      var peoplePresent := AllPresent(book.authorIds + book.narratorIds, people);
      if !peoplePresent { return Some(BookPersonMissing); }
      var facetIds := book.genreIds + book.themeIds;
      if book.seriesId != "" { facetIds := facetIds + [book.seriesId]; }
      assert facetIds == FacetRefs(book);
      var facetsPresent := AllPresent(facetIds, facets);
      if !facetsPresent { return Some(BookFacetMissing); }
    }
    r := None;
  }

  method AssertReferentialIntegrity(c: Catalog, entries: seq<Entry>) returns (r: Option<ReconcileError>)
    ensures r == IntegrityError(c, entries)
    ensures r.None? <==> ReferencesResolve(c, entries)
    ensures r == Some(EntryBookMissing) <==> exists i :: 0 <= i < |entries| && !HasBook(c, entries[i].bookId)
    ensures r.Some? && r != Some(EntryBookMissing) ==> exists i :: FirstUnresolved(c, i, r.value)
  {
    IntegrityErrorByField(c, entries);
    var books := IndexById(c.books, BookId);
    var people := IndexById(c.people, PersonId);
    var facets := IndexById(c.facets, FacetId);
    IndexKeys(c.books, BookId);
    IndexKeys(c.people, PersonId);
    IndexKeys(c.facets, FacetId);
    for i := 0 to |entries|
      invariant forall j :: 0 <= j < i ==> entries[j].bookId in Ids(c.books, BookId)
    {
      if entries[i].bookId !in books { return Some(EntryBookMissing); }
    }
    r := FindBookError(c.books, people, facets);
  }

  // ---- What reconciliation computes ---------------------------------------

  /** A snapshot by id. */
  datatype Index = Index(
    entries: map<string, Entry>, books: map<string, Book>,
    people: map<string, Person>, facets: map<string, Facet>)

  function IndexOf(s: Snapshot): Index {
    Index(IndexBy(s.entries, EntryId), IndexBy(s.catalog.books, BookId),
          IndexBy(s.catalog.people, PersonId), IndexBy(s.catalog.facets, FacetId))
  }

  const EMPTY_INDEX := Index(map[], map[], map[], map[])

  function PreviousIndex(previous: Option<Snapshot>): Index {
    if previous.None? then EMPTY_INDEX else IndexOf(previous.value)
  }

  function PreviousObservedAt(previous: Option<Snapshot>, now: Instant): Instant {
    if previous.Some? && previous.value.observedAt.Some? then previous.value.observedAt.value else now
  }

  function Listed(e: Entry, now: Instant): Entry {
    e.(missingFromSource := false, sourceObservedAt := Some(now), lastSeenAt := Some(now))
  }

  function Retained(e: Entry, now: Instant, previousAt: Instant): Entry {
    e.(missingFromSource := true, sourceObservedAt := Some(now),
       lastSeenAt := if e.lastSeenAt.Some? then e.lastSeenAt
                     else if e.sourceObservedAt.Some? then e.sourceObservedAt
                     else Some(previousAt))
  }

  /** `have`, extended with those of `wanted` that only `from` has. */
  function Extended<T>(have: map<string, T>, wanted: set<string>, from: map<string, T>): map<string, T> {
    map id | id in have.Keys + (wanted * from.Keys) :: if id in have then have[id] else from[id]
  }

  ghost function PersonRefsOf(books: map<string, Book>, ids: set<string>): set<string> {
    set id, p | id in ids && id in books && p in PersonRefs(books[id]) :: p
  }

  ghost function FacetRefsOf(books: map<string, Book>, ids: set<string>): set<string> {
    set id, f | id in ids && id in books && f in FacetRefs(books[id]) :: f
  }

  /** The candidate's entries as listed, with the entries `gone` retained. */
  function EntriesWith(prev: map<string, Entry>, cand: map<string, Entry>, gone: set<string>,
                       now: Instant, previousAt: Instant): map<string, Entry>
    requires gone <= prev.Keys
  {
    map id | id in cand.Keys + gone :: if id in cand then Listed(cand[id], now) else Retained(prev[id], now, previousAt)
  }

  /** The retained library by id, when the entries `gone` are the ones to retain. */
  ghost function MergedWith(prev: Index, cand: Index, gone: set<string>, now: Instant, previousAt: Instant): Index
    requires gone <= prev.entries.Keys
  {
    Index(
      EntriesWith(prev.entries, cand.entries, gone, now, previousAt),
      Extended(cand.books, gone, prev.books),
      Extended(cand.people, PersonRefsOf(prev.books, gone), prev.people),
      Extended(cand.facets, FacetRefsOf(prev.books, gone), prev.facets))
  }

  ghost function Gone(prev: Index, cand: Index): set<string> { prev.entries.Keys - cand.entries.Keys }

  ghost function Merged(prev: Index, cand: Index, now: Instant, previousAt: Instant): Index {
    MergedWith(prev, cand, Gone(prev, cand), now, previousAt)
  }

  function SnapshotOf(candidate: Snapshot, ix: Index): Snapshot {
    candidate.(catalog := Catalog(SortedValues(ix.people), SortedValues(ix.facets), SortedValues(ix.books)),
               entries := SortedValues(ix.entries))
  }

  ghost function AddedIds(prev: Index, cand: Index): set<string> { cand.entries.Keys - prev.entries.Keys }

  ghost function ReappearedIds(prev: Index, cand: Index): set<string> {
    set id | id in cand.entries && id in prev.entries && prev.entries[id].missingFromSource
  }

  ghost function UpdatedIds(prev: Index, cand: Index): set<string> {
    set id | id in cand.entries && id in prev.entries && !prev.entries[id].missingFromSource
  }

  ghost function ReportOf(prev: Index, cand: Index, now: Instant): Report {
    Report(SortedIds(AddedIds(prev, cand)), SortedIds(UpdatedIds(prev, cand)),
           SortedIds(ReappearedIds(prev, cand)), SortedIds(Gone(prev, cand)),
           SortedIds((Gone(prev, cand) * prev.books.Keys) - cand.books.Keys),
           now, |cand.entries.Keys + prev.entries.Keys|)
  }

  ghost function Reconciliation(previous: Option<Snapshot>, candidate: Option<Snapshot>, complete: bool)
    : Result<Reconciled, ReconcileError>
  {
    if !complete then Err(IncompleteCaptureNotReconcilable)
    else if candidate.None? then Err(CandidateInvalid)
    else if candidate.value.observedAt.None? then Err(ObservedAtInvalid)
    else
      var c, now := candidate.value, candidate.value.observedAt.value;
      if IntegrityError(c.catalog, c.entries).Some? then Err(IntegrityError(c.catalog, c.entries).value)
      else if !DistinctIds(c.entries, EntryId) then Err(CandidateDuplicateEntry)
      else
        var prev, cand := PreviousIndex(previous), IndexOf(c);
        var s := SnapshotOf(c, Merged(prev, cand, now, PreviousObservedAt(previous, now)));
        if IntegrityError(s.catalog, s.entries).Some? then Err(IntegrityError(s.catalog, s.entries).value)
        else Ok(Reconciled(s, ReportOf(prev, cand, now)))
  }

  // ---- The loops that compute it ------------------------------------------

  method RetainReferenced<T>(have: map<string, T>, refs: seq<string>, from: map<string, T>) returns (r: map<string, T>)
    ensures r == Extended(have, AsSet(refs), from)
  {
    r := have;
    for i := 0 to |refs|
      invariant r == Extended(have, AsSet(refs[..i]), from)
    {
      assert refs[..i + 1] == refs[..i] + [refs[i]];
      if refs[i] !in r && refs[i] in from { r := r[refs[i] := from[refs[i]]]; }
    }
    assert refs[..|refs|] == refs;
  }

  lemma ExtendedTwice<T>(have: map<string, T>, a: set<string>, b: set<string>, from: map<string, T>)
    ensures Extended(Extended(have, a, from), b, from) == Extended(have, a + b, from)
  {
  }

  lemma RefsOfOneMore(books: map<string, Book>, ids: set<string>, id: string)
    ensures PersonRefsOf(books, ids + {id}) ==
      PersonRefsOf(books, ids) + if id in books then AsSet(PersonRefs(books[id])) else {}
    ensures FacetRefsOf(books, ids + {id}) ==
      FacetRefsOf(books, ids) + if id in books then AsSet(FacetRefs(books[id])) else {}
  {
  }

  /** The catalog records a retained book points at. */
  method RetainCatalog(prev: Index, cand: Index, ghost done: set<string>, ix: Index, book: Book)
    returns (people: map<string, Person>, facets: map<string, Facet>)
    requires ix.people == Extended(cand.people, PersonRefsOf(prev.books, done), prev.people)
    requires ix.facets == Extended(cand.facets, FacetRefsOf(prev.books, done), prev.facets)
    ensures people == Extended(cand.people, PersonRefsOf(prev.books, done) + AsSet(PersonRefs(book)), prev.people)
    ensures facets == Extended(cand.facets, FacetRefsOf(prev.books, done) + AsSet(FacetRefs(book)), prev.facets)
  {
    people := RetainReferenced(ix.people, book.authorIds + book.narratorIds, prev.people);
    var facetIds := book.genreIds + book.themeIds;
    if book.seriesId != "" { facetIds := facetIds + [book.seriesId]; }
    assert facetIds == FacetRefs(book);
    facets := RetainReferenced(ix.facets, facetIds, prev.facets);
    ExtendedTwice(cand.people, PersonRefsOf(prev.books, done), AsSet(PersonRefs(book)), prev.people);
    ExtendedTwice(cand.facets, FacetRefsOf(prev.books, done), AsSet(FacetRefs(book)), prev.facets);
  }

  lemma EntriesWithOneMore(prev: map<string, Entry>, cand: map<string, Entry>, done: set<string>, id: string,
                           now: Instant, previousAt: Instant)
    requires done <= prev.Keys && id in prev && id !in cand
    ensures EntriesWith(prev, cand, done + {id}, now, previousAt)
         == EntriesWith(prev, cand, done, now, previousAt)[id := Retained(prev[id], now, previousAt)]
  {
  }

  lemma ExtendedOneMore<T>(have: map<string, T>, wanted: set<string>, id: string, from: map<string, T>)
    ensures Extended(have, wanted + {id}, from) ==
      if id in from && id !in Extended(have, wanted, from) then Extended(have, wanted, from)[id := from[id]]
      else Extended(have, wanted, from)
  {
  }

  /** One retained entry, and everything it points at. */
  method RetainEntry(prev: Index, cand: Index, ghost done: set<string>, ix: Index, id: string,
                     now: Instant, previousAt: Instant)
    returns (r: Index, keptBook: bool)
    requires done <= Gone(prev, cand) && id in Gone(prev, cand) - done
    requires ix == MergedWith(prev, cand, done, now, previousAt)
    ensures r == MergedWith(prev, cand, done + {id}, now, previousAt)
    ensures keptBook <==> id in prev.books && id !in cand.books
  {
    var entries := ix.entries[id := Retained(prev.entries[id], now, previousAt)];
    var books, people, facets := ix.books, ix.people, ix.facets;
    keptBook := false;
    EntriesWithOneMore(prev.entries, cand.entries, done, id, now, previousAt);
    ExtendedOneMore(cand.books, done, id, prev.books);
    RefsOfOneMore(prev.books, done, id);
    if id in prev.books {
      var book := prev.books[id];
      if id !in books { books := books[id := book]; keptBook := true; }
      people, facets := RetainCatalog(prev, cand, done, ix, book);
    } else {
      assert PersonRefsOf(prev.books, done + {id}) == PersonRefsOf(prev.books, done);
      assert FacetRefsOf(prev.books, done + {id}) == FacetRefsOf(prev.books, done);
    }
    r := Index(entries, books, people, facets);
  }

  function ListedAll(entries: map<string, Entry>, now: Instant): map<string, Entry> {
    map id | id in entries :: Listed(entries[id], now)
  }

  datatype Listing = Listing(entries: map<string, Entry>, added: seq<string>, updated: seq<string>, reappeared: seq<string>)

  /** Which report an entry the capture lists goes to. */
  ghost predicate ListingOf(l: Listing, listed: map<string, Entry>, prev: map<string, Entry>, now: Instant) {
    && l.entries == ListedAll(listed, now)
    && NoRepeats(l.added) && NoRepeats(l.updated) && NoRepeats(l.reappeared)
    && AsSet(l.added) == listed.Keys - prev.Keys
    && AsSet(l.updated) == (set id | id in listed && id in prev && !prev[id].missingFromSource)
    && AsSet(l.reappeared) == (set id | id in listed && id in prev && prev[id].missingFromSource)
  }

  /** One entry the capture lists. */
  method ListEntry(l: Listing, ghost listed: map<string, Entry>, prev: map<string, Entry>, e: Entry, now: Instant)
    returns (r: Listing)
    requires ListingOf(l, listed, prev, now) && e.bookId !in listed
    ensures ListingOf(r, listed[e.bookId := e], prev, now)
  {
    var id := e.bookId;
    var entries := l.entries[id := Listed(e, now)];
    assert id !in AsSet(l.added) && id !in AsSet(l.updated) && id !in AsSet(l.reappeared);
    if id !in prev {
      PushNew(l.added, id);
      r := l.(entries := entries, added := l.added + [id]);
    } else if prev[id].missingFromSource {
      PushNew(l.reappeared, id);
      r := l.(entries := entries, reappeared := l.reappeared + [id]);
    } else {
      PushNew(l.updated, id);
      r := l.(entries := entries, updated := l.updated + [id]);
    }
  }

  /** The first loop: None when the capture lists a book twice. */
  method ListCandidate(candidate: seq<Entry>, prev: map<string, Entry>, now: Instant) returns (r: Option<Listing>)
    ensures r.Some? <==> DistinctIds(candidate, EntryId)
    ensures r.Some? ==> ListingOf(r.value, IndexBy(candidate, EntryId), prev, now)
  {
    var l := Listing(map[], [], [], []);
    for i := 0 to |candidate|
      invariant DistinctIds(candidate[..i], EntryId)
      invariant ListingOf(l, IndexBy(candidate[..i], EntryId), prev, now)
    {
      IndexOneMore(candidate, i, EntryId);
      if candidate[i].bookId in l.entries { return None; }
      l := ListEntry(l, IndexBy(candidate[..i], EntryId), prev, candidate[i], now);
    }
    assert candidate[..|candidate|] == candidate;
    r := Some(l);
  }

  lemma MergedWithNone(prev: Index, cand: Index, now: Instant, previousAt: Instant)
    ensures MergedWith(prev, cand, {}, now, previousAt)
         == Index(ListedAll(cand.entries, now), cand.books, cand.people, cand.facets)
  {
    assert PersonRefsOf(prev.books, {}) == {} && FacetRefsOf(prev.books, {}) == {};
  }

  lemma KeptOneMore(kept: set<string>, done: set<string>, id: string, prevIds: set<string>, candIds: set<string>)
    requires kept == (done * prevIds) - candIds
    ensures kept + (if id in prevIds && id !in candIds then {id} else {}) == ((done + {id}) * prevIds) - candIds
  {
  }

  /** The second loop, in whatever order it visits the retained entries. */
  method RetainMissing(prev: Index, cand: Index, listing: map<string, Entry>, now: Instant, previousAt: Instant)
    returns (ix: Index, missing: seq<string>, keptBooks: seq<string>)
    requires listing == ListedAll(cand.entries, now)
    ensures ix == Merged(prev, cand, now, previousAt)
    ensures NoRepeats(missing) && AsSet(missing) == Gone(prev, cand)
    ensures NoRepeats(keptBooks) && AsSet(keptBooks) == (Gone(prev, cand) * prev.books.Keys) - cand.books.Keys
  {
    ix := Index(listing, cand.books, cand.people, cand.facets);
    missing, keptBooks := [], [];
    ghost var done: set<string>, all := {}, Gone(prev, cand);
    MergedWithNone(prev, cand, now, previousAt);
    var todo := prev.entries.Keys - cand.entries.Keys;
    while todo != {}
      invariant done <= all && todo == all - done
      invariant ix == MergedWith(prev, cand, done, now, previousAt)
      invariant NoRepeats(missing) && AsSet(missing) == done
      invariant NoRepeats(keptBooks) && AsSet(keptBooks) == (done * prev.books.Keys) - cand.books.Keys
      decreases todo
    {
      var id :| id in todo;
      var keptBook;
      ix, keptBook := RetainEntry(prev, cand, done, ix, id, now, previousAt);
      PushNew(missing, id);
      missing := missing + [id];
      KeptOneMore(AsSet(keptBooks), done, id, prev.books.Keys, cand.books.Keys);
      if keptBook {
        PushNew(keptBooks, id);
        keptBooks := keptBooks + [id];
      }
      done := done + {id};
      todo := todo - {id};
    }
    assert done == all;
  }

  lemma ReportFromLists(prev: Index, cand: Index, l: Listing, missing: seq<string>, keptBooks: seq<string>, now: Instant)
    requires ListingOf(l, cand.entries, prev.entries, now)
    requires NoRepeats(missing) && AsSet(missing) == Gone(prev, cand)
    requires NoRepeats(keptBooks) && AsSet(keptBooks) == (Gone(prev, cand) * prev.books.Keys) - cand.books.Keys
    ensures ReportOf(prev, cand, now) ==
      Report(SortTexts(l.added), SortTexts(l.updated), SortTexts(l.reappeared), SortTexts(missing),
             SortTexts(keptBooks), now, |cand.entries.Keys + prev.entries.Keys|)
  {
    assert AsSet(l.updated) == UpdatedIds(prev, cand);
    assert AsSet(l.reappeared) == ReappearedIds(prev, cand);
  }

  lemma MergedSize(prev: Index, cand: Index, now: Instant, previousAt: Instant)
    ensures |SortedValues(Merged(prev, cand, now, previousAt).entries)| == |cand.entries.Keys + prev.entries.Keys|
  {
    assert Merged(prev, cand, now, previousAt).entries.Keys == cand.entries.Keys + prev.entries.Keys;
  }

  method Promote(prev: Index, cand: Index, c: Snapshot, now: Instant, previousAt: Instant, l: Listing)
    returns (r: Result<Reconciled, ReconcileError>)
    requires ListingOf(l, cand.entries, prev.entries, now)
    ensures
      var s := SnapshotOf(c, Merged(prev, cand, now, previousAt));
      r == if IntegrityError(s.catalog, s.entries).Some? then Err(IntegrityError(s.catalog, s.entries).value)
           else Ok(Reconciled(s, ReportOf(prev, cand, now)))
  {
    var ix, missing, keptBooks := RetainMissing(prev, cand, l.entries, now, previousAt);
    var snapshot := SnapshotOf(c, ix);
    var invalid := AssertReferentialIntegrity(snapshot.catalog, snapshot.entries);
    if invalid.Some? { return Err(invalid.value); }
    MergedSize(prev, cand, now, previousAt);
    ReportFromLists(prev, cand, l, missing, keptBooks, now);
    var report := Report(SortTexts(l.added), SortTexts(l.updated), SortTexts(l.reappeared), SortTexts(missing),
                         SortTexts(keptBooks), now, |snapshot.entries|);
    r := Ok(Reconciled(snapshot, report));
  }

  method ReconcileSnapshot(previous: Option<Snapshot>, candidate: Option<Snapshot>, complete: bool)
    returns (r: Result<Reconciled, ReconcileError>)
    ensures r == Reconciliation(previous, candidate, complete)
  {
    if !complete { return Err(IncompleteCaptureNotReconcilable); }
    if candidate.None? { return Err(CandidateInvalid); }
    if candidate.value.observedAt.None? { return Err(ObservedAtInvalid); }
    var c, now := candidate.value, candidate.value.observedAt.value;
    var invalid := AssertReferentialIntegrity(c.catalog, c.entries);
    if invalid.Some? { return Err(invalid.value); }

    var previousAt := if previous.Some? && previous.value.observedAt.Some? then previous.value.observedAt.value else now;
    var prev, cand := PreviousIndex(previous), IndexOf(c);
    var listing := ListCandidate(c.entries, prev.entries, now);
    if listing.None? { return Err(CandidateDuplicateEntry); }
    r := Promote(prev, cand, c, now, previousAt, listing.value);
  }
}
