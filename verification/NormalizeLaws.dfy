/** What normalization guarantees about every snapshot it emits
    (connector/atnr_connector/normalize.py), and that the reconciler accepts it. */
module NormalizeLaws {
  import opened Texts
  import opened Normalize
  import Library
  import Reconcile
  import ReconcileLaws
  import ReconcileRuns

  // ---- The invariant of the loop --------------------------------------------

  ghost predicate BookIsWhole(b: Library.Book, people: set<string>, facets: set<string>) {
    Reconcile.Covered(Reconcile.PersonRefs(b), people) && Reconcile.Covered(Reconcile.FacetRefs(b), facets)
  }

  ghost predicate Inv(s: State) {
    && |s.books| == |s.entries|
    && (forall i :: 0 <= i < |s.books| ==> s.entries[i].bookId == s.books[i].bookId)
    && Library.DistinctIds(s.books, Library.BookId)
    && s.seen == Library.Ids(s.books, Library.BookId)
    && (forall i :: 0 <= i < |s.books| ==> BookIsWhole(s.books[i], s.people.Keys, s.facets.Keys))
  }

  lemma {:induction false} ResolvedArePeople(d: Digest, raws: seq<RawContributor>, role: Role, key: string, people: People)
    requires ResolvedFrom(d, raws, role, key, people).Ok?
    ensures var r := ResolvedFrom(d, raws, role, key, people).value;
      && people.Keys <= r.people.Keys
      && AsSet(r.ids) <= r.people.Keys
  {
    if raws == [] {
    } else {
      ResolvedArePeople(d, raws[..|raws| - 1], role, key, people);
    }
  }

  lemma ContributorsArePeople(d: Digest, list: RawContributors, role: Role, key: string, people: People)
    requires ContributorsOf(d, list, role, key, people).Ok?
    ensures var r := ContributorsOf(d, list, role, key, people).value;
      && people.Keys <= r.people.Keys
      && AsSet(r.ids) <= r.people.Keys
  {
    if list.List? { ResolvedArePeople(d, list.items, role, key, people); }
  }

  lemma {:induction false} ShelvedAreFacets(d: Digest, ladders: seq<RawLadder>, key: string, facets: Facets)
    ensures var r := ShelvedFrom(d, ladders, key, facets);
      facets.Keys <= r.facets.Keys && AsSet(r.ids) <= r.facets.Keys
  {
    if ladders == [] {
    } else {
      ShelvedAreFacets(d, ladders[..|ladders| - 1], key, facets);
    }
  }

  lemma CategoriesAreFacets(d: Digest, ladders: seq<RawLadder>, key: string, facets: Facets)
    ensures var r := CategoriesOf(d, ladders, key, facets);
      facets.Keys <= r.facets.Keys && AsSet(r.ids) <= r.facets.Keys
  {
    var first := if |ladders| > CATEGORY_LADDER_LIMIT then ladders[..CATEGORY_LADDER_LIMIT] else ladders;
    ShelvedAreFacets(d, first, key, facets);
    AsSetOfSortedIds(AsSet(ShelvedFrom(d, first, key, facets).ids));
  }

  lemma CoveredBySet(refs: seq<string>, ids: set<string>)
    ensures Reconcile.Covered(refs, ids) <==> AsSet(refs) <= ids
  {
    assert forall i :: 0 <= i < |refs| ==> refs[i] in AsSet(refs);
  }

  lemma NewBookIsWhole(b: Library.Book, authors: seq<string>, narrators: seq<string>, people: set<string>, facets: set<string>)
    requires b.authorIds == SortedIds(AsSet(authors)) && b.narratorIds == SortedIds(AsSet(narrators))
    requires AsSet(authors) <= people && AsSet(narrators) <= people
    requires AsSet(b.genreIds) <= facets && b.themeIds == [] && (b.seriesId != "" ==> b.seriesId in facets)
    ensures BookIsWhole(b, people, facets)
  {
    AsSetOfSortedIds(AsSet(authors));
    AsSetOfSortedIds(AsSet(narrators));
    CoveredBySet(b.authorIds, people);
    CoveredBySet(b.narratorIds, people);
    CoveredBySet(b.genreIds, facets);
  }

  lemma WholeInMore(b: Library.Book, people: set<string>, facets: set<string>, morePeople: set<string>, moreFacets: set<string>)
    requires BookIsWhole(b, people, facets) && people <= morePeople && facets <= moreFacets
    ensures BookIsWhole(b, morePeople, moreFacets)
  {
  }

  /** One record adds one whole book, one entry for it, and forgets nobody. */
  ghost predicate AddsOne(s: State, next: State) {
    && s.people.Keys <= next.people.Keys && s.facets.Keys <= next.facets.Keys
    && |next.books| == |s.books| + 1 && next.books[..|s.books|] == s.books
    && |next.entries| == |s.entries| + 1 && next.entries[..|s.entries|] == s.entries
    && var book := next.books[|s.books|];
       && next.entries[|s.entries|].bookId == book.bookId
       && book.bookId !in s.seen && next.seen == s.seen + {book.bookId}
       && BookIsWhole(book, next.people.Keys, next.facets.Keys)
  }

  lemma PartsArePresent(d: Digest, raw: RawRecord, key: string, people: People, facets: Facets)
    requires raw.RawRecord? && PartsOf(d, raw, key, people, facets).Ok?
    ensures var p := PartsOf(d, raw, key, people, facets).value;
      && people.Keys <= p.narrators.people.Keys && facets.Keys <= p.shelved.facets.Keys
      && AsSet(p.authors.ids) <= p.narrators.people.Keys && AsSet(p.narrators.ids) <= p.narrators.people.Keys
      && AsSet(p.shelved.ids) <= p.shelved.facets.Keys
      && (p.series.seriesId.Some? ==> p.series.seriesId.value in p.shelved.facets)
  {
    var p := PartsOf(d, raw, key, people, facets).value;
    ContributorsArePeople(d, raw.authors, Author, key, people);
    ContributorsArePeople(d, raw.narrators, Narrator, key, p.authors.people);
    CategoriesAreFacets(d, raw.ladders, key, p.series.facets);
  }

  lemma RecordAddsOne(d: Digest, at: int, raw: RawRecord, s: State)
    requires RecordStep(d, at, raw, s).Ok?
    ensures AddsOne(s, RecordStep(d, at, raw, s).value)
  {
    var key := BookKey(Required(raw.asin, 128).value);
    var p := PartsOf(d, raw, key, s.people, s.facets).value;
    PartsArePresent(d, raw, key, s.people, s.facets);
    var next := RecordStep(d, at, raw, s).value;
    NewBookIsWhole(next.books[|s.books|], p.authors.ids, p.narrators.ids, next.people.Keys, next.facets.Keys);
  }

  lemma AddingOneKeepsInv(s: State, next: State)
    requires Inv(s) && AddsOne(s, next)
    ensures Inv(next)
  {
    var n := |s.books|;
    assert forall i :: 0 <= i < n ==> next.books[i] == s.books[i] && next.entries[i] == s.entries[i];
    forall i | 0 <= i < n + 1 ensures BookIsWhole(next.books[i], next.people.Keys, next.facets.Keys) {
      if i < n { WholeInMore(s.books[i], s.people.Keys, s.facets.Keys, next.people.Keys, next.facets.Keys); }
    }
    assert next.books == s.books + [next.books[n]];
    Library.DistinctOneMore(s.books, next.books[n], Library.BookId);
    Library.IdsOneMore(s.books, next.books[n], Library.BookId);
  }

  lemma {:induction false} GatheredKeepsInv(d: Digest, at: int, items: seq<RawRecord>)
    requires Gathered(d, at, items).Ok?
    ensures Inv(Gathered(d, at, items).value)
    ensures |Gathered(d, at, items).value.books| == |items|
  {
    if items == [] {
    } else {
      var n := |items| - 1;
      GatheredKeepsInv(d, at, items[..n]);
      var before := Gathered(d, at, items[..n]).value;
      RecordAddsOne(d, at, items[n], before);
      AddingOneKeepsInv(before, RecordStep(d, at, items[n], before).value);
    }
  }

  // ---- The emitted snapshot ------------------------------------------------------

  lemma PublishedIndex(s: State)
    ensures Library.IndexBy(SortedValues(PublishedPeople(s.people)), Library.PersonId).Keys == s.people.Keys
    ensures Library.IndexBy(SortedValues(PublishedFacets(s.facets)), Library.FacetId).Keys == s.facets.Keys
    ensures Library.DistinctIds(SortedValues(PublishedPeople(s.people)), Library.PersonId)
    ensures Library.DistinctIds(SortedValues(PublishedFacets(s.facets)), Library.FacetId)
  {
    Library.IndexOfSortedValues(PublishedPeople(s.people), Library.PersonId);
    Library.IndexOfSortedValues(PublishedFacets(s.facets), Library.FacetId);
  }

  /** Sorting changes the order of the records only. */
  lemma SortedRecords<T>(records: seq<T>, id: T -> string)
    requires Library.DistinctIds(records, id)
    ensures var sorted := SortedValues(Library.IndexBy(records, id));
      && Library.DistinctIds(sorted, id)
      && Library.IndexBy(sorted, id) == Library.IndexBy(records, id)
      && Library.Ids(sorted, id) == Library.Ids(records, id)
      && (forall i :: 0 <= i < |sorted| ==> sorted[i] in records)
      && |sorted| == |Library.Ids(records, id)|
  {
    var m := Library.IndexBy(records, id);
    Library.IndexKeys(records, id);
    Library.IndexOfSortedValues(m, id);
    Library.IndexKeys(SortedValues(m), id);
    SortedValuesAt(m);
  }

  lemma DistinctCount<T>(records: seq<T>, id: T -> string)
    requires Library.DistinctIds(records, id)
    ensures |Library.Ids(records, id)| == |records|
  {
    var ids := seq(|records|, i requires 0 <= i < |records| => id(records[i]));
    assert AsSet(ids) == Library.Ids(records, id) by {
      forall x | x in Library.Ids(records, id) ensures x in AsSet(ids) {
        var i :| 0 <= i < |records| && id(records[i]) == x;
        assert ids[i] == x;
      }
    }
    NoRepeatsSize(ids);
  }

  lemma EntriesAreDistinct(s: State)
    requires Inv(s)
    ensures Library.DistinctIds(s.entries, Library.EntryId)
    ensures Library.Ids(s.entries, Library.EntryId) == s.seen
  {
    forall i, j | 0 <= i < j < |s.entries| ensures Library.EntryId(s.entries[i]) != Library.EntryId(s.entries[j]) {
      assert Library.BookId(s.books[i]) != Library.BookId(s.books[j]);
    }
    forall id | id in s.seen ensures id in Library.Ids(s.entries, Library.EntryId) {
      var i :| 0 <= i < |s.books| && Library.BookId(s.books[i]) == id;
      assert Library.EntryId(s.entries[i]) == id;
    }
    forall id | id in Library.Ids(s.entries, Library.EntryId) ensures id in s.seen {
      var i :| 0 <= i < |s.entries| && Library.EntryId(s.entries[i]) == id;
      assert Library.BookId(s.books[i]) == id;
    }
  }

  lemma WholeFromParts(c: Library.Catalog, entries: seq<Library.Entry>, people: set<string>, facets: set<string>)
    requires people == Library.Ids(c.people, Library.PersonId) && facets == Library.Ids(c.facets, Library.FacetId)
    requires Library.Ids(entries, Library.EntryId) <= Library.Ids(c.books, Library.BookId)
    requires forall i :: 0 <= i < |c.books| ==> BookIsWhole(c.books[i], people, facets)
    ensures Reconcile.Whole(c, entries)
  {
    forall i | 0 <= i < |entries| ensures entries[i].bookId in Library.Ids(c.books, Library.BookId) {
      assert Library.EntryId(entries[i]) in Library.Ids(entries, Library.EntryId);
    }
  }

  lemma EmittedIsWhole(s: State, at: int)
    requires Inv(s)
    ensures Reconcile.Whole(SnapshotOf(s, at).catalog, SnapshotOf(s, at).entries)
  {
    var out := SnapshotOf(s, at);
    EntriesAreDistinct(s);
    SortedRecords(s.books, Library.BookId);
    SortedRecords(s.entries, Library.EntryId);
    PublishedIndex(s);
    Library.IndexKeys(out.catalog.people, Library.PersonId);
    Library.IndexKeys(out.catalog.facets, Library.FacetId);
    SortedBooksAreWhole(s);
    WholeFromParts(out.catalog, out.entries, s.people.Keys, s.facets.Keys);
  }

  lemma SortedBooksAreWhole(s: State)
    requires Inv(s)
    ensures var sorted := SortedValues(Library.IndexBy(s.books, Library.BookId));
      forall i :: 0 <= i < |sorted| ==> BookIsWhole(sorted[i], s.people.Keys, s.facets.Keys)
  {
    SortedRecords(s.books, Library.BookId);
    var sorted := SortedValues(Library.IndexBy(s.books, Library.BookId));
    forall i | 0 <= i < |sorted| ensures BookIsWhole(sorted[i], s.people.Keys, s.facets.Keys) {
      var j :| 0 <= j < |s.books| && s.books[j] == sorted[i];
    }
  }

  /** The three closing checks can never fire: a run that reaches them returns its snapshot. */
  lemma ClosingChecksNeverFire(d: Digest, items: seq<RawRecord>, marketplace: string, observedAt: Option<int>)
    ensures var r := Normalized(d, items, marketplace, observedAt);
      r.Err? ==> r.error.code !in {EntryBookMissing, BookPersonMissing, BookFacetMissing}
    ensures marketplace == "us" && observedAt.Some? ==>
      (Normalized(d, items, marketplace, observedAt).Ok? <==> Gathered(d, observedAt.value, items).Ok?)
  {
    if marketplace == "us" && observedAt.Some? {
      var gathered := Gathered(d, observedAt.value, items);
      if gathered.Ok? {
        GatheredKeepsInv(d, observedAt.value, items);
        EmittedIsWhole(gathered.value, observedAt.value);
        var out := SnapshotOf(gathered.value, observedAt.value);
        Reconcile.IntegrityIsWholeness(out.catalog, out.entries);
      } else {
        GatheringErrors(d, observedAt.value, items);
      }
    }
  }

  predicate AllNamed(raws: seq<RawContributor>) {
    raws == [] || (AllNamed(raws[..|raws| - 1]) && PersonError(raws[|raws| - 1]).None?)
  }

  lemma {:induction false} AllNamedExactly(raws: seq<RawContributor>)
    ensures AllNamed(raws) <==> forall i :: 0 <= i < |raws| ==> PersonError(raws[i]).None?
  {
    if raws == [] {
    } else {
      var front := raws[..|raws| - 1];
      AllNamedExactly(front);
      assert forall i :: 0 <= i < |front| ==> front[i] == raws[i];
    }
  }

  lemma {:induction false} ResolvingErrors(d: Digest, raws: seq<RawContributor>, role: Role, key: string, people: People)
    ensures var r := ResolvedFrom(d, raws, role, key, people);
      (r.Err? ==> !IsClosing(r.error)) && (r.Ok? <==> AllNamed(raws))
  {
    if raws == [] {
    } else {
      ResolvingErrors(d, raws[..|raws| - 1], role, key, people);
    }
  }

  predicate IsClosing(c: Code) { c.EntryBookMissing? || c.BookPersonMissing? || c.BookFacetMissing? }

  lemma ContributorsErrors(d: Digest, list: RawContributors, role: Role, key: string, people: People)
    ensures var r := ContributorsOf(d, list, role, key, people);
      (r.Err? ==> !IsClosing(r.error)) && (r.Ok? <==> ContributorsAreValid(list))
  {
    if list.List? {
      ResolvingErrors(d, list.items, role, key, people);
      AllNamedExactly(list.items);
    }
  }

  predicate PartsAreValid(raw: RawRecord)
    requires raw.RawRecord?
  {
    && ContributorsAreValid(raw.authors) && ContributorsAreValid(raw.narrators)
    && (raw.series.NoSeries? || Required(raw.series.name, 200).Ok?)
    && ProgressOf(raw.progress).Ok?
  }

  lemma SeriesErrors(d: Digest, raw: RawSeries, key: string, facets: Facets)
    ensures var r := SeriesOf(d, raw, key, facets);
      (r.Err? ==> !IsClosing(r.error)) && (r.Ok? <==> raw.NoSeries? || Required(raw.name, 200).Ok?)
  {
  }

  lemma PartsErrors(d: Digest, raw: RawRecord, key: string, people: People, facets: Facets)
    requires raw.RawRecord?
    ensures var r := PartsOf(d, raw, key, people, facets);
      (r.Err? ==> !IsClosing(r.error)) && (r.Ok? <==> PartsAreValid(raw))
  {
    SeriesErrors(d, raw.series, key, facets);
    ContributorsErrors(d, raw.authors, Author, key, people);
    var authors := ContributorsOf(d, raw.authors, Author, key, people);
    if authors.Ok? { ContributorsErrors(d, raw.narrators, Narrator, key, authors.value.people); }
  }

  lemma RecordErrors(d: Digest, at: int, raw: RawRecord, s: State)
    ensures var r := RecordStep(d, at, raw, s); r.Err? ==> !IsClosing(r.error)
  {
    if raw.RawRecord? && Required(raw.asin, 128).Ok? {
      PartsErrors(d, raw, BookKey(Required(raw.asin, 128).value), s.people, s.facets);
    }
  }

  lemma {:induction false} GatheringErrors(d: Digest, at: int, items: seq<RawRecord>)
    ensures var r := Gathered(d, at, items); r.Err? ==> !IsClosing(r.error.code)
  {
    if items == [] {
    } else {
      var n := |items| - 1;
      GatheringErrors(d, at, items[..n]);
      var before := Gathered(d, at, items[..n]);
      if before.Ok? { RecordErrors(d, at, items[n], before.value); }
    }
  }

  /** Uniquely and in id order, books and entries side by side. */
  ghost predicate InOrder(c: Library.Catalog, entries: seq<Library.Entry>) {
    && Library.DistinctIds(c.people, Library.PersonId)
    && Library.DistinctIds(c.facets, Library.FacetId)
    && |c.books| == |entries|
    && (forall i :: 0 <= i < |entries| ==> entries[i].bookId == c.books[i].bookId)
    && (forall i, j :: 0 <= i < j < |c.books| ==> Less(c.books[i].bookId, c.books[j].bookId))
  }

  lemma SameIndexKeys(s: State)
    requires Inv(s)
    ensures Library.IndexBy(s.books, Library.BookId).Keys == s.seen == Library.IndexBy(s.entries, Library.EntryId).Keys
    ensures forall x :: x in s.seen ==>
      Library.IndexBy(s.books, Library.BookId)[x].bookId == x && Library.IndexBy(s.entries, Library.EntryId)[x].bookId == x
  {
    EntriesAreDistinct(s);
    Library.IndexKeys(s.books, Library.BookId);
    Library.IndexKeys(s.entries, Library.EntryId);
    var m, n := Library.IndexBy(s.books, Library.BookId), Library.IndexBy(s.entries, Library.EntryId);
    forall x | x in s.seen ensures m[x].bookId == x && n[x].bookId == x {
      assert Library.BookId(m[x]) == x && Library.EntryId(n[x]) == x;
    }
  }

  lemma EmittedIsInOrder(s: State, at: int)
    requires Inv(s)
    ensures InOrder(SnapshotOf(s, at).catalog, SnapshotOf(s, at).entries)
    ensures |SnapshotOf(s, at).entries| == |s.books|
  {
    var books, entries := Library.IndexBy(s.books, Library.BookId), Library.IndexBy(s.entries, Library.EntryId);
    assert |SortedValues(books)| == |s.books| by {
      SortedRecords(s.books, Library.BookId);
      DistinctCount(s.books, Library.BookId);
    }
    PublishedCatalog(s, at);
    SameIndexKeys(s);
    AlignedById(books, entries);
  }

  lemma PublishedCatalog(s: State, at: int)
    requires Inv(s)
    ensures Library.DistinctIds(SnapshotOf(s, at).catalog.people, Library.PersonId)
    ensures Library.DistinctIds(SnapshotOf(s, at).catalog.facets, Library.FacetId)
  {
    PublishedIndex(s);
  }

  lemma EmittedHasOneIndex(s: State, at: int)
    requires Inv(s)
    ensures Reconcile.IndexOf(SnapshotOf(s, at)).books.Keys == Reconcile.IndexOf(SnapshotOf(s, at)).entries.Keys
    ensures Library.DistinctIds(SnapshotOf(s, at).entries, Library.EntryId)
  {
    SameIndexKeys(s);
    EntriesAreDistinct(s);
    SortedRecords(s.books, Library.BookId);
    SortedRecords(s.entries, Library.EntryId);
  }

  /** What comes out: one book and one entry for every record, uniquely and in id order,
      with every reference present. */
  lemma EmittedSnapshotIsAcceptable(d: Digest, items: seq<RawRecord>, observedAt: Option<int>)
    requires Normalized(d, items, "us", observedAt).Ok?
    ensures var out := Normalized(d, items, "us", observedAt).value;
      && ReconcileLaws.Acceptable(out)
      && InOrder(out.catalog, out.entries)
      && |out.entries| == |items|
      && Reconcile.IndexOf(out).books.Keys == Reconcile.IndexOf(out).entries.Keys
  {
    var s := Gathered(d, observedAt.value, items).value;
    GatheredKeepsInv(d, observedAt.value, items);
    EmittedIsWhole(s, observedAt.value);
    EmittedIsInOrder(s, observedAt.value);
    EmittedHasOneIndex(s, observedAt.value);
  }

  /** Two collections keyed by the same ids, sorted, line up. */
  lemma AlignedById(books: map<string, Library.Book>, entries: map<string, Library.Entry>)
    requires books.Keys == entries.Keys
    requires forall x :: x in books ==> books[x].bookId == x && entries[x].bookId == x
    ensures |SortedValues(books)| == |SortedValues(entries)|
    ensures forall i :: 0 <= i < |SortedValues(books)| ==> SortedValues(books)[i].bookId == SortedValues(entries)[i].bookId
    ensures forall i, j :: 0 <= i < j < |SortedValues(books)| ==>
      Less(SortedValues(books)[i].bookId, SortedValues(books)[j].bookId)
  {
    SortedValuesAt(books);
    SortedValuesAt(entries);
    SortedIdsAscending(books.Keys);
  }

  /** The capture a connector emits replays exactly: reconciling it twice is reconciling it once. */
  lemma EmittedSnapshotReplaysExactly(d: Digest, items: seq<RawRecord>, observedAt: Option<int>, previous: Option<Library.Snapshot>)
    requires Normalized(d, items, "us", observedAt).Ok?
    requires previous.Some? ==> Reconcile.Whole(previous.value.catalog, previous.value.entries)
    ensures var out := Normalized(d, items, "us", observedAt).value;
      && Reconcile.Reconciliation(previous, Some(out), true).Ok?
      && var s1 := Reconcile.Reconciliation(previous, Some(out), true).value.snapshot;
         Reconcile.Reconciliation(Some(s1), Some(out), true).Ok?
         && Reconcile.Reconciliation(Some(s1), Some(out), true).value.snapshot == s1
  {
    var out := Normalized(d, items, "us", observedAt).value;
    EmittedSnapshotIsAcceptable(d, items, observedAt);
    ReconcileLaws.WholePreviousNeverFails(previous, out);
    ReconcileRuns.SameIdsReplayExactly(previous, out);
  }

  // ---- Complete or stop --------------------------------------------------------------

  predicate ContributorsAreValid(list: RawContributors) {
    || list.NoList?
    || (list.List? && |list.items| <= CONTRIBUTOR_LIMIT
        && forall i :: 0 <= i < |list.items| ==> PersonError(list.items[i]).None?)
  }

  /** A record every required part of which can be read. */
  predicate RecordIsValid(raw: RawRecord) {
    && raw.RawRecord?
    && Required(raw.asin, 128).Ok? && Required(raw.title, 200).Ok?
    && PartsAreValid(raw)
  }

  /** The id a valid record's book gets. */
  function RecordBookId(d: Digest, raw: RawRecord): string {
    if RecordIsValid(raw) then Identifier(d, "book", BookKey(Required(raw.asin, 128).value)) else ""
  }

  lemma RecordExactly(d: Digest, at: int, raw: RawRecord, s: State)
    ensures RecordStep(d, at, raw, s).Ok? <==> RecordIsValid(raw) && RecordBookId(d, raw) !in s.seen
    ensures RecordStep(d, at, raw, s).Ok? ==> RecordStep(d, at, raw, s).value.seen == s.seen + {RecordBookId(d, raw)}
  {
    if raw.RawRecord? && Required(raw.asin, 128).Ok? {
      PartsErrors(d, raw, BookKey(Required(raw.asin, 128).value), s.people, s.facets);
    }
  }

  ghost predicate AllValid(items: seq<RawRecord>) { forall i :: 0 <= i < |items| ==> RecordIsValid(items[i]) }

  function BookNamer(d: Digest): RawRecord -> string { (raw: RawRecord) => RecordBookId(d, raw) }

  ghost predicate DistinctBooks(d: Digest, items: seq<RawRecord>) { Library.DistinctIds(items, BookNamer(d)) }

  ghost function BookIds(d: Digest, items: seq<RawRecord>): set<string> { Library.Ids(items, BookNamer(d)) }

  lemma {:induction false} GatheredExactly(d: Digest, at: int, items: seq<RawRecord>)
    ensures Gathered(d, at, items).Ok? <==> AllValid(items) && DistinctBooks(d, items)
    ensures Gathered(d, at, items).Ok? ==> Gathered(d, at, items).value.seen == BookIds(d, items)
  {
    if items == [] {
    } else {
      var n := |items| - 1;
      var before := Gathered(d, at, items[..n]);
      GatheredExactly(d, at, items[..n]);
      OneMoreValid(items);
      OneMoreBook(d, items);
      if before.Ok? { RecordExactly(d, at, items[n], before.value); }
    }
  }

  lemma OneMoreValid(items: seq<RawRecord>)
    requires items != []
    ensures AllValid(items) <==> AllValid(items[..|items| - 1]) && RecordIsValid(items[|items| - 1])
  {
    var front := items[..|items| - 1];
    assert forall i :: 0 <= i < |front| ==> front[i] == items[i];
  }

  lemma OneMoreBook(d: Digest, items: seq<RawRecord>)
    requires items != []
    ensures var front, id := items[..|items| - 1], RecordBookId(d, items[|items| - 1]);
      && BookIds(d, items) == BookIds(d, front) + {id}
      && (DistinctBooks(d, items) <==> DistinctBooks(d, front) && id !in BookIds(d, front))
  {
    var front, last := items[..|items| - 1], items[|items| - 1];
    assert items == front + [last];
    Library.IdsOneMore(front, last, BookNamer(d));
    Library.DistinctIsPrefixClosed(front, last, BookNamer(d));
    if DistinctBooks(d, front) { Library.DistinctOneMore(front, last, BookNamer(d)); }
  }

  /** Complete or stop: a library is normalized exactly when every record is valid and no
      two of them name the same book. */
  lemma NormalizesExactly(d: Digest, items: seq<RawRecord>, marketplace: string, observedAt: Option<int>)
    ensures Normalized(d, items, marketplace, observedAt).Ok? <==>
      marketplace == "us" && observedAt.Some? && AllValid(items) && DistinctBooks(d, items)
  {
    ClosingChecksNeverFire(d, items, marketplace, observedAt);
    if observedAt.Some? { GatheredExactly(d, observedAt.value, items); }
  }
}
