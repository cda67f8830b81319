/** Accepting a connector's snapshot: the `Catalog` constructor of src/core/model.js and
    `validateLiveSnapshot` of src/sync/live-snapshot.js, and that normalization always
    passes them. */
module LiveSnapshot {
  import opened Texts
  import opened Library
  import Reconcile
  import Merge
  import Normalize
  import NormalizeLaws

  datatype ValidationError =
    | DuplicatePersonId | DuplicateFacetId | DuplicateBookId | UnknownPerson | UnknownFacet
    | RecordsRejected | EntryHasNoBook | ObservedAtInvalid

  datatype Indexed = Indexed(people: map<string, Person>, facets: map<string, Facet>, books: map<string, Book>)

  /** The checks and the indexes of a catalog, in the order of its constructor. */
  ghost function CatalogOf(c: Catalog): Result<Indexed, ValidationError> {
    if !DistinctIds(c.people, PersonId) then Err(DuplicatePersonId)
    else if !DistinctIds(c.facets, FacetId) then Err(DuplicateFacetId)
    else if !DistinctIds(c.books, BookId) then Err(DuplicateBookId)
    else
      var missing := Reconcile.FirstBookError(c.books, Ids(c.people, PersonId), Ids(c.facets, FacetId));
      if missing.Some? then Err(if missing.value.BookPersonMissing? then UnknownPerson else UnknownFacet)
      else Ok(Indexed(IndexBy(c.people, PersonId), IndexBy(c.facets, FacetId), IndexBy(c.books, BookId)))
  }

  /** The index, unless an id repeats. */
  method IndexUnique<T>(records: seq<T>, id: T -> string) returns (r: Option<map<string, T>>)
    ensures r.Some? <==> DistinctIds(records, id)
    ensures r.Some? ==> r.value == IndexBy(records, id)
  {
    var m: map<string, T> := map[];
    for i := 0 to |records|
      invariant DistinctIds(records[..i], id) && m == IndexBy(records[..i], id)
    {
      IndexOneMore(records, i, id);
      if id(records[i]) in m { return None; }
      m := m[id(records[i]) := records[i]];
    }
    assert records[..|records|] == records;
    r := Some(m);
  }

  method BuildCatalog(c: Catalog) returns (r: Result<Indexed, ValidationError>)
    ensures r == CatalogOf(c)
  {
    var people := IndexUnique(c.people, PersonId);
    if people.None? { return Err(DuplicatePersonId); }
    var facets := IndexUnique(c.facets, FacetId);
    if facets.None? { return Err(DuplicateFacetId); }
    var books := IndexUnique(c.books, BookId);
    if books.None? { return Err(DuplicateBookId); }
    IndexKeys(c.people, PersonId);
    IndexKeys(c.facets, FacetId);
    var missing := Reconcile.FindBookError(c.books, people.value, facets.value);
    if missing.Some? { return Err(if missing.value.BookPersonMissing? then UnknownPerson else UnknownFacet); }
    r := Ok(Indexed(people.value, facets.value, books.value));
  }

  predicate AllHaveBooks(entries: seq<Entry>, books: set<string>) {
    forall i :: 0 <= i < |entries| ==> entries[i].bookId in books
  }

  ghost function Validated(c: Catalog, entries: seq<Merge.RawEntry>, o: Merge.Origin): Result<Merge.MergeResult, ValidationError> {
    var catalog, merge := CatalogOf(c), Merge.Merging([], entries, o);
    if catalog.Err? then Err(catalog.error)
    else if merge.report.rejected != [] || |merge.entries| != |entries| then Err(RecordsRejected)
    else if !AllHaveBooks(merge.entries, catalog.value.books.Keys) then Err(EntryHasNoBook)
    else Ok(merge)
  }

  method CheckBooks(entries: seq<Entry>, books: map<string, Book>) returns (ok: bool)
    ensures ok == AllHaveBooks(entries, books.Keys)
  {
    for i := 0 to |entries|
      invariant AllHaveBooks(entries[..i], books.Keys)
    {
      if entries[i].bookId !in books { return false; }
      assert forall k :: 0 <= k < i ==> entries[..i][k] == entries[..i + 1][k];
    }
    assert entries[..|entries|] == entries;
    ok := true;
  }

  method ValidateLiveSnapshot(c: Catalog, entries: seq<Merge.RawEntry>, o: Merge.Origin)
    returns (r: Result<Merge.MergeResult, ValidationError>)
    ensures r == Validated(c, entries, o)
  {
    var catalog := BuildCatalog(c);
    if catalog.Err? { return Err(catalog.error); }
    var merge := Merge.MergeLibrarySnapshot([], entries, o);
    if |merge.report.rejected| > 0 || |merge.entries| != |entries| { return Err(RecordsRejected); }
    var ok := CheckBooks(merge.entries, catalog.value.books);
    if !ok { return Err(EntryHasNoBook); }
    r := Ok(merge);
  }

  // ---- Exactly what passes ---------------------------------------------------------

  /** Well formed, and no id twice. */
  ghost predicate Clean(entries: seq<Merge.RawEntry>) {
    && (forall i :: 0 <= i < |entries| ==> entries[i].Raw?)
    && (forall i, j :: 0 <= i < j < |entries| ==> entries[i].bookId != entries[j].bookId)
  }

  ghost function RawIds(entries: seq<Merge.RawEntry>): set<string> {
    set i | 0 <= i < |entries| && entries[i].Raw? :: entries[i].bookId
  }

  lemma NoneRejectedExactly(entries: seq<Merge.RawEntry>, o: Merge.Origin)
    ensures Merge.Rejected(entries, o) == [] <==> Clean(entries)
  {
    Merge.RejectedAreTheOthers(entries, o);
    var rejected := Merge.Rejected(entries, o);
    if Clean(entries) {
      if rejected != [] { assert Merge.RejectedAt(rejected, rejected[0].recordIndex); }
      forall i: nat | i < |entries| ensures Merge.IsFirst(entries, i) { }
    }
    if rejected == [] {
      forall i: nat | i < |entries| ensures Merge.IsFirst(entries, i) { assert !Merge.RejectedAt(rejected, i); }
      AllFirstIsClean(entries);
    }
  }

  lemma AllFirstIsClean(entries: seq<Merge.RawEntry>)
    requires forall i: nat :: i < |entries| ==> Merge.IsFirst(entries, i)
    ensures Clean(entries)
  {
    forall i | 0 <= i < |entries| ensures entries[i].Raw? { assert Merge.IsFirst(entries, i); }
    forall i, j | 0 <= i < j < |entries| ensures entries[i].bookId != entries[j].bookId {
      assert Merge.IsFirst(entries, i) && Merge.IsFirst(entries, j);
    }
  }

  lemma {:induction false} AcceptedIds(entries: seq<Merge.RawEntry>, o: Merge.Origin)
    ensures Merge.Accepted(entries, o).Keys == RawIds(entries)
  {
    if entries == [] {
    } else {
      var n := |entries| - 1;
      AcceptedIds(entries[..n], o);
      assert forall i :: 0 <= i < n ==> entries[..n][i] == entries[i];
      forall id | id in RawIds(entries[..n]) ensures id in RawIds(entries) {
        var i :| 0 <= i < n && entries[..n][i].Raw? && entries[..n][i].bookId == id;
        assert entries[i].bookId == id;
      }
      if entries[n].Raw? { assert entries[n].bookId in RawIds(entries); }
    }
  }

  lemma FirstState(accepted: map<string, Entry>, o: Merge.Origin)
    requires forall id :: id in accepted ==> accepted[id].bookId == id
    ensures Merge.MergedState(map[], accepted, o) == accepted
  {
  }

  lemma SortedEntries(m: map<string, Entry>, books: set<string>)
    requires forall id :: id in m ==> m[id].bookId == id
    ensures AllHaveBooks(SortedValues(m), books) <==> m.Keys <= books
  {
    SortedValuesAt(m);
    SortedIdsElements(m.Keys);
    var merged := SortedValues(m);
    if AllHaveBooks(merged, books) {
      forall id | id in m ensures id in books {
        var i :| 0 <= i < |merged| && SortedIds(m.Keys)[i] == id;
        assert merged[i].bookId == id;
      }
    }
  }

  /** The merged entries of a first import are the accepted ones. */
  lemma FirstImport(entries: seq<Merge.RawEntry>, o: Merge.Origin, books: set<string>)
    ensures var merged := Merge.Merging([], entries, o).entries;
      && |merged| == |Merge.Accepted(entries, o)|
      && (AllHaveBooks(merged, books) <==> RawIds(entries) <= books)
  {
    AcceptedIds(entries, o);
    Merge.AcceptedIsKeyed(entries, o);
    FirstState(Merge.Accepted(entries, o), o);
    SortedEntries(Merge.Accepted(entries, o), books);
  }

  /** No id twice, and every reference of a book present. */
  ghost predicate Consistent(c: Catalog) {
    && DistinctIds(c.people, PersonId) && DistinctIds(c.facets, FacetId) && DistinctIds(c.books, BookId)
    && forall i :: 0 <= i < |c.books| ==>
         NormalizeLaws.BookIsWhole(c.books[i], Ids(c.people, PersonId), Ids(c.facets, FacetId))
  }

  lemma CatalogExactly(c: Catalog)
    ensures CatalogOf(c).Ok? <==> Consistent(c)
    ensures CatalogOf(c).Ok? ==> CatalogOf(c).value.books.Keys == Ids(c.books, BookId)
  {
    Reconcile.FirstBookErrorNone(c.books, Ids(c.people, PersonId), Ids(c.facets, FacetId));
    IndexKeys(c.books, BookId);
  }

  /** A snapshot is accepted exactly when its catalog is consistent, every record is well
      formed and names a book of its own, and the catalog holds that book. */
  lemma AcceptsExactly(c: Catalog, entries: seq<Merge.RawEntry>, o: Merge.Origin)
    ensures Validated(c, entries, o).Ok? <==> Consistent(c) && Clean(entries) && RawIds(entries) <= Ids(c.books, BookId)
  {
    CatalogExactly(c);
    NoneRejectedExactly(entries, o);
    Merge.AcceptedOrRejected(entries, o);
    FirstImport(entries, o, Ids(c.books, BookId));
  }

  // ---- What normalization emits passes -------------------------------------------------

  /** Entries as they arrive: without the fields the core adds. */
  function AsRaw(entries: seq<Entry>): seq<Merge.RawEntry> {
    seq(|entries|, i requires 0 <= i < |entries| => Merge.Raw(entries[i].bookId, entries[i].facts, None, None, None))
  }

  lemma InOrderIsConsistent(c: Catalog, entries: seq<Entry>)
    requires NormalizeLaws.InOrder(c, entries) && Reconcile.Whole(c, entries)
    ensures Consistent(c) && Clean(AsRaw(entries)) && RawIds(AsRaw(entries)) <= Ids(c.books, BookId)
  {
    forall i, j | 0 <= i < j < |c.books| ensures c.books[i].bookId != c.books[j].bookId {
      LessTotal(c.books[i].bookId, c.books[j].bookId);
    }
    var raw := AsRaw(entries);
    forall i, j | 0 <= i < j < |raw| ensures raw[i].bookId != raw[j].bookId {
      assert raw[i].bookId == c.books[i].bookId && raw[j].bookId == c.books[j].bookId;
    }
    forall id | id in RawIds(raw) ensures id in Ids(c.books, BookId) {
      var i :| 0 <= i < |raw| && raw[i].Raw? && raw[i].bookId == id;
      assert BookId(c.books[i]) == id;
    }
  }

  /** Whatever normalization emits, the core accepts. */
  lemma EmittedSnapshotIsAccepted(
    d: Normalize.Digest, items: seq<Normalize.RawRecord>, observedAt: Option<int>, o: Merge.Origin)
    requires Normalize.Normalized(d, items, "us", observedAt).Ok?
    ensures var out := Normalize.Normalized(d, items, "us", observedAt).value;
      Validated(out.catalog, AsRaw(out.entries), o).Ok?
  {
    var out := Normalize.Normalized(d, items, "us", observedAt).value;
    NormalizeLaws.EmittedSnapshotIsAcceptable(d, items, observedAt);
    InOrderIsConsistent(out.catalog, out.entries);
    AcceptsExactly(out.catalog, AsRaw(out.entries), o);
  }
}
