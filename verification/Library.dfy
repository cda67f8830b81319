/** The records of a library snapshot, as far as reconciliation and merging look at them. */
module Library {
  import opened Texts

  type Instant = int

  /** The source-owned fields of an entry: SOURCE_OWNED_FIELDS of src/core/model.js. */
  datatype Facts = Facts(
    status: string, percentComplete: Option<real>, positionSeconds: Option<real>,
    acquiredAt: Option<Instant>, lastListenedAt: Option<Instant>, completedAt: Option<Instant>)

  datatype Provenance = Provenance(source: string, observedAt: Instant)

  /** A stored entry may predate the three observation fields. */
  datatype Entry = Entry(
    bookId: string, facts: Facts, provenance: Provenance, lastSyncedAt: Option<Instant>,
    sourceObservedAt: Option<Instant>, lastSeenAt: Option<Instant>, missingFromSource: bool)

  /** `seriesId` is "" for a book without a series. */
  datatype Book = Book(
    bookId: string, authorIds: seq<string>, narratorIds: seq<string>,
    genreIds: seq<string>, themeIds: seq<string>, seriesId: string, details: string)

  datatype Person = Person(personId: string, details: string)

  datatype Facet = Facet(facetId: string, details: string)

  datatype Catalog = Catalog(people: seq<Person>, facets: seq<Facet>, books: seq<Book>)

  /** `observedAt` is None unless it is a zone-qualified instant. */
  datatype Snapshot = Snapshot(
    observedAt: Option<Instant>, header: string, catalog: Catalog, entries: seq<Entry>)

  function EntryId(e: Entry): string { e.bookId }
  function BookId(b: Book): string { b.bookId }
  function PersonId(p: Person): string { p.personId }
  function FacetId(f: Facet): string { f.facetId }

  /** The `Map` that setting every record under its id leaves behind: the last one wins. */
  function IndexBy<T>(records: seq<T>, id: T -> string): map<string, T> {
    if records == [] then map[]
    else
      var last := records[|records| - 1];
      IndexBy(records[..|records| - 1], id)[id(last) := last]
  }

  ghost predicate DistinctIds<T>(records: seq<T>, id: T -> string) {
    forall i, j :: 0 <= i < j < |records| ==> id(records[i]) != id(records[j])
  }

  function Ids<T>(records: seq<T>, id: T -> string): set<string> {
    set i | 0 <= i < |records| :: id(records[i])
  }

  lemma {:induction false} IndexKeys<T>(records: seq<T>, id: T -> string)
    ensures IndexBy(records, id).Keys == Ids(records, id)
    ensures forall x :: x in IndexBy(records, id) ==>
      IndexBy(records, id)[x] in records && id(IndexBy(records, id)[x]) == x
  {
    if records == [] {
    } else {
      var front, last := records[..|records| - 1], records[|records| - 1];
      IndexKeys(front, id);
      IdsOneMore(front, last, id);
      assert records == front + [last];
    }
  }

  /** Of several records of one id the last is indexed. */
  lemma {:induction false} LastRecordWins<T>(records: seq<T>, id: T -> string, i: nat)
    requires i < |records| && forall j :: i < j < |records| ==> id(records[j]) != id(records[i])
    ensures id(records[i]) in IndexBy(records, id) && IndexBy(records, id)[id(records[i])] == records[i]
  {
    var front := records[..|records| - 1];
    if i == |front| {
    } else {
      assert id(records[|front|]) != id(records[i]);
      assert forall j :: i <= j < |front| ==> front[j] == records[j];
      LastRecordWins(front, id, i);
    }
  }

  lemma IdsOneMore<T>(front: seq<T>, last: T, id: T -> string)
    ensures Ids(front + [last], id) == Ids(front, id) + {id(last)}
  {
    var more := front + [last];
    forall i | 0 <= i < |more| ensures id(more[i]) in Ids(front, id) + {id(last)} {
      if i < |front| { assert front[i] == more[i]; }
    }
    forall x | x in Ids(front, id) ensures x in Ids(more, id) {
      var i :| 0 <= i < |front| && id(front[i]) == x;
      assert more[i] == front[i];
    }
    assert more[|front|] == last;
  }

  lemma DistinctOneMore<T>(front: seq<T>, last: T, id: T -> string)
    requires DistinctIds(front, id)
    ensures DistinctIds(front + [last], id) <==> id(last) !in Ids(front, id)
  {
    var more := front + [last];
    assert forall j :: 0 <= j < |front| ==> front[j] == more[j] && id(front[j]) in Ids(front, id);
    if DistinctIds(more, id) {
      assert forall j :: 0 <= j < |front| ==> id(more[j]) != id(more[|front|]);
    }
  }

  lemma DistinctIsPrefixClosed<T>(front: seq<T>, last: T, id: T -> string)
    ensures DistinctIds(front + [last], id) ==> DistinctIds(front, id)
  {
    var more := front + [last];
    if DistinctIds(more, id) {
      forall i, j | 0 <= i < j < |front| ensures id(front[i]) != id(front[j]) { assert id(more[i]) != id(more[j]); }
    }
  }

  /** Indexing one record more, and when it repeats an id. */
  lemma IndexOneMore<T>(records: seq<T>, i: nat, id: T -> string)
    requires i < |records| && DistinctIds(records[..i], id)
    ensures IndexBy(records[..i + 1], id) == IndexBy(records[..i], id)[id(records[i]) := records[i]]
    ensures DistinctIds(records[..i + 1], id) <==> id(records[i]) !in IndexBy(records[..i], id)
    ensures DistinctIds(records, id) ==> DistinctIds(records[..i + 1], id)
  {
    var front, more := records[..i], records[..i + 1];
    assert more[..i] == front && more == front + [records[i]];
    IndexKeys(front, id);
    DistinctOneMore(front, records[i], id);
  }

  lemma {:induction false} IndexOfDistinct<T>(records: seq<T>, id: T -> string)
    requires DistinctIds(records, id)
    ensures forall i :: 0 <= i < |records| ==>
      id(records[i]) in IndexBy(records, id) && IndexBy(records, id)[id(records[i])] == records[i]
  {
    if records == [] {
    } else {
      var front, last := records[..|records| - 1], records[|records| - 1];
      assert DistinctIds(front, id);
      IndexOfDistinct(front, id);
      forall i | 0 <= i < |records|
        ensures id(records[i]) in IndexBy(records, id) && IndexBy(records, id)[id(records[i])] == records[i]
      {
        if i < |front| { assert front[i] == records[i]; }
      }
    }
  }

  lemma IndexWithin<T>(a: seq<T>, b: seq<T>, id: T -> string)
    requires DistinctIds(a, id) && DistinctIds(b, id) && multiset(a) == multiset(b)
    ensures forall x :: x in IndexBy(a, id) ==> x in IndexBy(b, id) && IndexBy(b, id)[x] == IndexBy(a, id)[x]
  {
    IndexKeys(a, id);
    IndexOfDistinct(b, id);
    forall x | x in IndexBy(a, id) ensures x in IndexBy(b, id) && IndexBy(b, id)[x] == IndexBy(a, id)[x] {
      assert IndexBy(a, id)[x] in multiset(a);
      assert IndexBy(a, id)[x] in b;
    }
  }

  /** Rearranging records of distinct ids does not change their index. */
  lemma IndexOfRearranged<T>(a: seq<T>, b: seq<T>, id: T -> string)
    requires DistinctIds(a, id) && DistinctIds(b, id) && multiset(a) == multiset(b)
    ensures IndexBy(a, id) == IndexBy(b, id)
  {
    IndexWithin(a, b, id);
    IndexWithin(b, a, id);
  }

  lemma ListingIsDistinct<T>(m: map<string, T>, ids: seq<string>, values: seq<T>, id: T -> string)
    requires forall x :: x in m ==> id(m[x]) == x
    requires |ids| == |values| && forall i :: 0 <= i < |ids| ==> ids[i] in m && values[i] == m[ids[i]]
    requires forall i, j :: 0 <= i < j < |ids| ==> ids[i] != ids[j]
    ensures DistinctIds(values, id)
    ensures forall i :: 0 <= i < |ids| ==> id(values[i]) == ids[i]
  {
  }

  lemma IndexOfListing<T>(m: map<string, T>, ids: seq<string>, values: seq<T>, id: T -> string)
    requires forall x :: x in m ==> id(m[x]) == x
    requires |ids| == |values| && forall i :: 0 <= i < |ids| ==> ids[i] in m && values[i] == m[ids[i]]
    requires forall i, j :: 0 <= i < j < |ids| ==> ids[i] != ids[j]
    requires forall x :: x in m ==> x in ids
    ensures DistinctIds(values, id)
    ensures IndexBy(values, id) == m
  {
    ListingIsDistinct(m, ids, values, id);
    ListingIsIndexed(ids, values, id);
    ListingHasNoOther(ids, values, id);
    forall x | x in m ensures x in IndexBy(values, id) && IndexBy(values, id)[x] == m[x] {
      var i :| 0 <= i < |ids| && ids[i] == x;
      assert values[i] == m[x];
    }
  }

  lemma ListingIsIndexed<T>(ids: seq<string>, values: seq<T>, id: T -> string)
    requires |ids| == |values| && (forall i :: 0 <= i < |ids| ==> id(values[i]) == ids[i]) && DistinctIds(values, id)
    ensures forall i :: 0 <= i < |ids| ==> ids[i] in IndexBy(values, id) && IndexBy(values, id)[ids[i]] == values[i]
  {
    IndexOfDistinct(values, id);
  }

  lemma ListingHasNoOther<T>(ids: seq<string>, values: seq<T>, id: T -> string)
    requires |ids| == |values| && forall i :: 0 <= i < |ids| ==> id(values[i]) == ids[i]
    ensures forall x :: x in IndexBy(values, id) ==> x in ids
  {
    IndexKeys(values, id);
  }

  /** Sorting the values of an index by id gives records of distinct ids with that index. */
  lemma IndexOfSortedValues<T>(m: map<string, T>, id: T -> string)
    requires forall x :: x in m ==> id(m[x]) == x
    ensures DistinctIds(SortedValues(m), id)
    ensures IndexBy(SortedValues(m), id) == m
  {
    SortedIdsElements(m.Keys);
    AscendingIsDistinct(m.Keys);
    SortedValuesAt(m);
    IndexOfListing(m, SortedIds(m.Keys), SortedValues(m), id);
  }

  lemma AscendingIsDistinct(s: set<string>)
    ensures forall i, j :: 0 <= i < j < |SortedIds(s)| ==> SortedIds(s)[i] != SortedIds(s)[j]
  {
    SortedIdsAscending(s);
    forall i, j | 0 <= i < j < |SortedIds(s)| ensures SortedIds(s)[i] != SortedIds(s)[j] {
      LessTotal(SortedIds(s)[i], SortedIds(s)[j]);
    }
  }

  method IndexById<T>(records: seq<T>, id: T -> string) returns (m: map<string, T>)
    ensures m == IndexBy(records, id)
  {
    m := map[];
    for i := 0 to |records|
      invariant m == IndexBy(records[..i], id)
    {
      assert records[..i + 1][..i] == records[..i];
      m := m[id(records[i]) := records[i]];
    }
    assert records[..|records|] == records;
  }
}
