/** Reconciliation over time: replaying one capture, and the history a retained library
    carries through every run of captures. */
module ReconcileRuns {
  import opened Texts
  import opened Library
  import opened Reconcile
  import opened ReconcileLaws

  // ---- Replaying a capture ------------------------------------------------

  /** The books kept from the previous snapshot: what the report calls retained. */
  ghost function KeptBooks(prev: Index, cand: Index): set<string> {
    (Gone(prev, cand) * prev.books.Keys) - cand.books.Keys
  }

  /** Every person and facet retained is one that some kept book still refers to. */
  ghost predicate NothingOrphaned(prev: Index, cand: Index) {
    && (PersonRefsOf(prev.books, Gone(prev, cand)) * prev.people.Keys) - cand.people.Keys
       <= PersonRefsOf(prev.books, KeptBooks(prev, cand))
    && (FacetRefsOf(prev.books, Gone(prev, cand)) * prev.facets.Keys) - cand.facets.Keys
       <= FacetRefsOf(prev.books, KeptBooks(prev, cand))
  }

  lemma ReplayedEntries(prev: map<string, Entry>, cand: map<string, Entry>, now: Instant, previousAt: Instant)
    ensures
      var once := EntriesWith(prev, cand, prev.Keys - cand.Keys, now, previousAt);
      && once.Keys - cand.Keys == prev.Keys - cand.Keys
      && EntriesWith(once, cand, once.Keys - cand.Keys, now, now) == once
  {
  }

  lemma ReplayedBooks(prev: map<string, Book>, cand: map<string, Book>, gone: set<string>)
    ensures
      var once := Extended(cand, gone, prev);
      && Extended(cand, gone, once) == once
      && (gone * once.Keys) - cand.Keys == (gone * prev.Keys) - cand.Keys
      && forall id :: id in (gone * prev.Keys) - cand.Keys ==> once[id] == prev[id]
  {
  }

  lemma ReplayedEntriesAndBooks(prev: Index, cand: Index, now: Instant, previousAt: Instant)
    ensures
      var once := Merged(prev, cand, now, previousAt);
      var twice := Merged(once, cand, now, now);
      && Gone(once, cand) == Gone(prev, cand)
      && twice.entries == once.entries && twice.books == once.books
      && KeptBooks(once, cand) == KeptBooks(prev, cand)
      && forall id :: id in KeptBooks(prev, cand) ==> once.books[id] == prev.books[id]
  {
    ReplayedEntries(prev.entries, cand.entries, now, previousAt);
    ReplayedBooks(prev.books, cand.books, Gone(prev, cand));
  }

  /** A candidate book that replaces a gone one refers to nothing outside the candidate. */
  lemma RefsAfterReplacement(prev: Index, cand: Index, now: Instant, previousAt: Instant)
    requires WholeIndex(cand)
    ensures
      var once := Merged(prev, cand, now, previousAt);
      && PersonRefsOf(once.books, Gone(prev, cand)) - cand.people.Keys
         == PersonRefsOf(prev.books, KeptBooks(prev, cand)) - cand.people.Keys
      && FacetRefsOf(once.books, Gone(prev, cand)) - cand.facets.Keys
         == FacetRefsOf(prev.books, KeptBooks(prev, cand)) - cand.facets.Keys
  {
    var once, gone, kept := Merged(prev, cand, now, previousAt), Gone(prev, cand), KeptBooks(prev, cand);
    ReplayedEntriesAndBooks(prev, cand, now, previousAt);
    RefsSplit(once.books, gone, kept, cand);
    RefsOfSameBooks(prev.books, once.books, kept);
  }

  lemma RefsSplit(books: map<string, Book>, gone: set<string>, kept: set<string>, cand: Index)
    requires WholeIndex(cand) && kept <= gone
    requires forall id :: id in gone && id in books && id !in kept ==> id in cand.books && books[id] == cand.books[id]
    ensures PersonRefsOf(books, gone) - cand.people.Keys == PersonRefsOf(books, kept) - cand.people.Keys
    ensures FacetRefsOf(books, gone) - cand.facets.Keys == FacetRefsOf(books, kept) - cand.facets.Keys
  {
    forall id | id in gone && id in books && id !in kept
      ensures AsSet(PersonRefs(books[id])) <= cand.people.Keys && AsSet(FacetRefs(books[id])) <= cand.facets.Keys
    {
      assert BookCovered(cand.books[id], cand.people.Keys, cand.facets.Keys);
    }
    forall p | p in PersonRefsOf(books, gone) - cand.people.Keys ensures p in PersonRefsOf(books, kept) {
      var id :| id in gone && id in books && p in PersonRefs(books[id]);
      assert p in AsSet(PersonRefs(books[id]));
    }
    forall f | f in FacetRefsOf(books, gone) - cand.facets.Keys ensures f in FacetRefsOf(books, kept) {
      var id :| id in gone && id in books && f in FacetRefs(books[id]);
      assert f in AsSet(FacetRefs(books[id]));
    }
  }

  lemma ExtendedAgain<T>(have: map<string, T>, wanted: set<string>, from: map<string, T>, again: set<string>)
    ensures
      var once := Extended(have, wanted, from);
      Extended(have, again, once) == once <==> (wanted * from.Keys) - have.Keys <= again
  {
    var once := Extended(have, wanted, from);
    var twice := Extended(have, again, once);
    if (wanted * from.Keys) - have.Keys <= again {
      assert twice.Keys == once.Keys;
    }
    if twice == once {
      forall x | x in (wanted * from.Keys) - have.Keys ensures x in again {
        assert x in once.Keys && x in twice.Keys;
      }
    }
  }

  lemma ReplayedIndex(prev: Index, cand: Index, now: Instant, previousAt: Instant)
    requires WholeIndex(cand)
    ensures
      var once := Merged(prev, cand, now, previousAt);
      Merged(once, cand, now, now) == once <==> NothingOrphaned(prev, cand)
  {
    var once, gone := Merged(prev, cand, now, previousAt), Gone(prev, cand);
    ReplayedEntriesAndBooks(prev, cand, now, previousAt);
    RefsAfterReplacement(prev, cand, now, previousAt);
    ExtendedAgain(cand.people, PersonRefsOf(prev.books, gone), prev.people, PersonRefsOf(once.books, gone));
    ExtendedAgain(cand.facets, FacetRefsOf(prev.books, gone), prev.facets, FacetRefsOf(once.books, gone));
    SameOutside((PersonRefsOf(prev.books, gone) * prev.people.Keys) - cand.people.Keys,
                PersonRefsOf(once.books, gone), PersonRefsOf(prev.books, KeptBooks(prev, cand)), cand.people.Keys);
    SameOutside((FacetRefsOf(prev.books, gone) * prev.facets.Keys) - cand.facets.Keys,
                FacetRefsOf(once.books, gone), FacetRefsOf(prev.books, KeptBooks(prev, cand)), cand.facets.Keys);
  }

  lemma SameOutside(part: set<string>, a: set<string>, b: set<string>, inside: set<string>)
    requires a - inside == b - inside && part !! inside
    ensures part <= a <==> part <= b
  {
    assert part <= a <==> part <= a - inside;
    assert part <= b <==> part <= b - inside;
  }

  lemma ReplaySucceeds(previous: Option<Snapshot>, c: Snapshot)
    requires Acceptable(c) && Reconciliation(previous, Some(c), true).Ok?
    ensures var s1 := Reconciliation(previous, Some(c), true).value.snapshot;
      Reconciliation(Some(s1), Some(c), true).Ok? && s1.observedAt == c.observedAt
  {
    PromotedIsWhole(previous, c);
    WholePreviousNeverFails(Some(Reconciliation(previous, Some(c), true).value.snapshot), c);
  }

  /** Both passes by id. */
  lemma ReplayByIndex(previous: Option<Snapshot>, c: Snapshot)
    requires Acceptable(c) && Reconciliation(previous, Some(c), true).Ok?
    ensures
      var now := c.observedAt.value;
      var once := Merged(PreviousIndex(previous), IndexOf(c), now, PreviousObservedAt(previous, now));
      var s1 := Reconciliation(previous, Some(c), true).value.snapshot;
      var r2 := Reconciliation(Some(s1), Some(c), true);
      var twice := Merged(once, IndexOf(c), now, now);
      && s1 == SnapshotOf(c, once) && IndexOf(s1) == once
      && r2.Ok? && r2.value.snapshot == SnapshotOf(c, twice) && IndexOf(r2.value.snapshot) == twice
  {
    var s1 := Reconciliation(previous, Some(c), true).value.snapshot;
    ReplaySucceeds(previous, c);
    ResultIndex(previous, c);
    ResultIndex(Some(s1), c);
  }

  /** Replaying a capture gives back the same snapshot exactly when the first pass
      orphaned nothing; the pass after that always does. */
  lemma ReplayIsIdempotentExactly(previous: Option<Snapshot>, c: Snapshot)
    requires Acceptable(c) && Reconciliation(previous, Some(c), true).Ok?
    ensures
      var s1 := Reconciliation(previous, Some(c), true).value.snapshot;
      var r2 := Reconciliation(Some(s1), Some(c), true);
      && r2.Ok?
      && (r2.value.snapshot == s1 <==> NothingOrphaned(PreviousIndex(previous), IndexOf(c)))
  {
    var now := c.observedAt.value;
    ReplayByIndex(previous, c);
    WholeGivesWholeIndex(c);
    ReplayedIndex(PreviousIndex(previous), IndexOf(c), now, PreviousObservedAt(previous, now));
  }

  lemma OrphansNone(wanted: set<string>, kept: set<string>, had: set<string>, cand: set<string>)
    requires wanted - cand == kept - cand
    ensures (wanted * had) - cand <= kept
  {
    forall x | x in (wanted * had) - cand ensures x in kept { assert x in wanted - cand; }
  }

  /** What a second pass could orphan, the first pass already dropped. */
  lemma SecondPassOrphansNothing(prev: Index, cand: Index, now: Instant, previousAt: Instant)
    requires WholeIndex(cand)
    ensures NothingOrphaned(Merged(prev, cand, now, previousAt), cand)
  {
    var once := Merged(prev, cand, now, previousAt);
    var gone, kept := Gone(prev, cand), KeptBooks(prev, cand);
    ReplayedEntriesAndBooks(prev, cand, now, previousAt);
    RefsAfterReplacement(prev, cand, now, previousAt);
    RefsOfSameBooks(prev.books, once.books, kept);
    OrphansNone(PersonRefsOf(once.books, gone), PersonRefsOf(prev.books, kept), once.people.Keys, cand.people.Keys);
    OrphansNone(FacetRefsOf(once.books, gone), FacetRefsOf(prev.books, kept), once.facets.Keys, cand.facets.Keys);
    assert Gone(once, cand) == gone && KeptBooks(once, cand) == kept;
    assert PersonRefsOf(once.books, kept) == PersonRefsOf(prev.books, kept);
    assert FacetRefsOf(once.books, kept) == FacetRefsOf(prev.books, kept);
  }

  lemma RefsOfSameBooks(a: map<string, Book>, b: map<string, Book>, ids: set<string>)
    requires forall id :: id in ids ==> id in a && id in b && a[id] == b[id]
    ensures PersonRefsOf(a, ids) == PersonRefsOf(b, ids) && FacetRefsOf(a, ids) == FacetRefsOf(b, ids)
  {
  }

  lemma ReplayStabilizes(previous: Option<Snapshot>, c: Snapshot)
    requires Acceptable(c) && Reconciliation(previous, Some(c), true).Ok?
    ensures
      var s1 := Reconciliation(previous, Some(c), true).value.snapshot;
      var r2 := Reconciliation(Some(s1), Some(c), true);
      r2.Ok? && var r3 := Reconciliation(Some(r2.value.snapshot), Some(c), true);
      r3.Ok? && r3.value.snapshot == r2.value.snapshot
  {
    var now := c.observedAt.value;
    ReplayIsIdempotentExactly(previous, c);
    WholeGivesWholeIndex(c);
    var s1 := Reconciliation(previous, Some(c), true).value.snapshot;
    ResultIndex(previous, c);
    SecondPassOrphansNothing(PreviousIndex(previous), IndexOf(c), now, PreviousObservedAt(previous, now));
    ReplayIsIdempotentExactly(Some(s1), c);
  }

  /** A capture whose books are exactly the books of its entries replays exactly. */
  lemma SameIdsReplayExactly(previous: Option<Snapshot>, c: Snapshot)
    requires Acceptable(c) && Reconciliation(previous, Some(c), true).Ok?
    requires IndexOf(c).books.Keys == IndexOf(c).entries.Keys
    ensures
      var s1 := Reconciliation(previous, Some(c), true).value.snapshot;
      Reconciliation(Some(s1), Some(c), true).Ok?
      && Reconciliation(Some(s1), Some(c), true).value.snapshot == s1
  {
    SameIdsOrphanNothing(PreviousIndex(previous), IndexOf(c));
    ReplayIsIdempotentExactly(previous, c);
  }

  lemma SameIdsOrphanNothing(prev: Index, cand: Index)
    requires cand.books.Keys == cand.entries.Keys
    ensures NothingOrphaned(prev, cand)
  {
    assert KeptBooks(prev, cand) == Gone(prev, cand) * prev.books.Keys;
    assert PersonRefsOf(prev.books, Gone(prev, cand)) == PersonRefsOf(prev.books, KeptBooks(prev, cand));
    assert FacetRefsOf(prev.books, Gone(prev, cand)) == FacetRefsOf(prev.books, KeptBooks(prev, cand));
  }

  // A book whose entry is gone, but whose new version the capture still carries.
  const OLD_BOOK := Book("b", ["p"], [], [], [], "", "old")
  const NEW_BOOK := Book("b", [], [], [], [], "", "new")
  const ENTRY := Entry("b", Facts("unknown", None, None, None, None, None), Provenance("", 0), None, None, None, false)
  const BEFORE := Snapshot(Some(0), "", Catalog([Person("p", "")], [], [OLD_BOOK]), [ENTRY])
  const CAPTURE := Snapshot(Some(1), "", Catalog([], [], [NEW_BOOK]), [])

  lemma IndexOfOne<T>(x: T, id: T -> string)
    ensures IndexBy([x], id) == map[id(x) := x] && Ids([x], id) == {id(x)}
  {
    assert [x][..0] == [];
    IndexKeys([x], id);
    assert IndexBy([x], id) == IndexBy([], id)[id(x) := x];
  }

  lemma WitnessIndexes()
    ensures IndexOf(BEFORE) == Index(map["b" := ENTRY], map["b" := OLD_BOOK], map["p" := Person("p", "")], map[])
    ensures IndexOf(CAPTURE) == Index(map[], map["b" := NEW_BOOK], map[], map[])
    ensures Acceptable(CAPTURE)
  {
    IndexOfOne(ENTRY, EntryId);
    IndexOfOne(OLD_BOOK, BookId);
    IndexOfOne(NEW_BOOK, BookId);
    IndexOfOne(Person("p", ""), PersonId);
  }

  lemma WitnessOrphans(prev: Index, cand: Index)
    requires prev == Index(map["b" := ENTRY], map["b" := OLD_BOOK], map["p" := Person("p", "")], map[])
    requires cand == Index(map[], map["b" := NEW_BOOK], map[], map[])
    ensures RetentionWhole(prev, cand) && !NothingOrphaned(prev, cand)
  {
    assert PersonRefs(OLD_BOOK)[0] == "p";
    assert "b" in prev.entries.Keys && cand.entries.Keys == {};
    RefsAreCollected(prev.books, Gone(prev, cand), "b");
    assert PersonRefs(OLD_BOOK)[0] in PersonRefsOf(prev.books, Gone(prev, cand));
    assert PersonRefsOf(prev.books, KeptBooks(prev, cand)) == {};
    assert "p" in (PersonRefsOf(prev.books, Gone(prev, cand)) * prev.people.Keys) - cand.people.Keys;
  }

  /** Such a replay changes the snapshot: the old version's author is retained once and
      dropped on the next pass. */
  lemma ReplayCanDropPeople()
    ensures
      var r1 := Reconciliation(Some(BEFORE), Some(CAPTURE), true);
      r1.Ok? && Reconciliation(Some(r1.value.snapshot), Some(CAPTURE), true).Ok?
      && Reconciliation(Some(r1.value.snapshot), Some(CAPTURE), true).value.snapshot != r1.value.snapshot
  {
    WitnessIndexes();
    WitnessOrphans(IndexOf(BEFORE), IndexOf(CAPTURE));
    FinalCheckFailsExactly(Some(BEFORE), CAPTURE);
    ReplayIsIdempotentExactly(Some(BEFORE), CAPTURE);
  }

  // ---- A library over many captures ---------------------------------------

  /** What one attempt hands to reconciliation. */
  datatype Capture = Capture(snapshot: Option<Snapshot>, complete: bool)

  /** The library after the first `k` captures: a refused capture leaves it alone. */
  ghost function LibraryAfter(captures: seq<Capture>, k: nat): Option<Snapshot>
    requires k <= |captures|
  {
    if k == 0 then None
    else
      var before := LibraryAfter(captures, k - 1);
      var r := Reconciliation(before, captures[k - 1].snapshot, captures[k - 1].complete);
      if r.Ok? then Some(r.value.snapshot) else before
  }

  /** A capture that is complete, well observed, whole and free of repeated entries. */
  ghost predicate Good(c: Capture) {
    c.complete && c.snapshot.Some? && Acceptable(c.snapshot.value)
  }

  lemma RefusedUnlessGood(previous: Option<Snapshot>, c: Capture)
    requires previous.Some? ==> Whole(previous.value.catalog, previous.value.entries)
    ensures Reconciliation(previous, c.snapshot, c.complete).Ok? <==> Good(c)
  {
    if c.snapshot.Some? { IntegrityIsWholeness(c.snapshot.value.catalog, c.snapshot.value.entries); }
    if Good(c) { WholePreviousNeverFails(previous, c.snapshot.value); }
  }

  /** Exactly the good captures are promoted, and the library is whole at all times. */
  lemma {:induction false} LibraryIsAlwaysWhole(captures: seq<Capture>, k: nat)
    requires k <= |captures|
    ensures
      var l := LibraryAfter(captures, k);
      l.Some? ==> Whole(l.value.catalog, l.value.entries) && DistinctIds(l.value.entries, EntryId)
    ensures k < |captures| ==>
      (Reconciliation(LibraryAfter(captures, k), captures[k].snapshot, captures[k].complete).Ok? <==> Good(captures[k]))
  {
    if k == 0 {
    } else {
      LibraryIsAlwaysWhole(captures, k - 1);
      if Good(captures[k - 1]) { WholePreviousNeverFails(LibraryAfter(captures, k - 1), captures[k - 1].snapshot.value); }
    }
    if k < |captures| { RefusedUnlessGood(LibraryAfter(captures, k), captures[k]); }
  }

  /** The capture that last listed a book, among the first `k`. */
  ghost function LastListing(captures: seq<Capture>, k: nat, id: string): Option<nat>
    requires k <= |captures|
  {
    if k == 0 then None
    else if Good(captures[k - 1]) && id in IndexOf(captures[k - 1].snapshot.value).entries then Some(k - 1)
    else LastListing(captures, k - 1, id)
  }

  ghost function LastPromoted(captures: seq<Capture>, k: nat): Option<nat>
    requires k <= |captures|
  {
    if k == 0 then None else if Good(captures[k - 1]) then Some(k - 1) else LastPromoted(captures, k - 1)
  }

  lemma {:induction false} LastListingIsPromoted(captures: seq<Capture>, k: nat, id: string)
    requires k <= |captures|
    ensures LastListing(captures, k, id).Some? ==>
      var j := LastListing(captures, k, id).value;
      && j < k && Good(captures[j]) && id in IndexOf(captures[j].snapshot.value).entries
      && LastPromoted(captures, k).Some? && j <= LastPromoted(captures, k).value < k
  {
    if k == 0 {
    } else {
      LastListingIsPromoted(captures, k - 1, id);
    }
  }

  ghost function EntriesAfter(captures: seq<Capture>, k: nat): map<string, Entry>
    requires k <= |captures|
  {
    PreviousIndex(LibraryAfter(captures, k)).entries
  }

  /** The entry a book's last listing leaves behind, seen from the last promoted capture. */
  ghost function HistoryEntry(captures: seq<Capture>, k: nat, id: string): Entry
    requires k <= |captures| && LastListing(captures, k, id).Some?
  {
    LastListingIsPromoted(captures, k, id);
    var j, last := LastListing(captures, k, id).value, LastPromoted(captures, k).value;
    LastPromotedIsGood(captures, k);
    IndexOf(captures[j].snapshot.value).entries[id].(
      missingFromSource := j != last,
      sourceObservedAt := captures[last].snapshot.value.observedAt,
      lastSeenAt := captures[j].snapshot.value.observedAt)
  }

  lemma {:induction false} LastPromotedIsGood(captures: seq<Capture>, k: nat)
    requires k <= |captures|
    ensures LastPromoted(captures, k).Some? ==>
      LastPromoted(captures, k).value < k && Good(captures[LastPromoted(captures, k).value])
  {
    if k == 0 {
    } else {
      LastPromotedIsGood(captures, k - 1);
    }
  }

  lemma PromotedEntries(captures: seq<Capture>, k: nat)
    requires k < |captures| && Good(captures[k])
    ensures
      var c := captures[k].snapshot.value;
      var before, cand := PreviousIndex(LibraryAfter(captures, k)), IndexOf(c);
      EntriesAfter(captures, k + 1) ==
        EntriesWith(before.entries, cand.entries, Gone(before, cand), c.observedAt.value,
                    PreviousObservedAt(LibraryAfter(captures, k), c.observedAt.value))
  {
    LibraryIsAlwaysWhole(captures, k);
    ResultIndex(LibraryAfter(captures, k), captures[k].snapshot.value);
  }

  /** The library holds the book exactly if it was ever listed, and then as history says. */
  ghost predicate Told(captures: seq<Capture>, k: nat, id: string)
    requires k <= |captures|
  {
    && (id in EntriesAfter(captures, k) <==> LastListing(captures, k, id).Some?)
    && (LastListing(captures, k, id).Some? ==> EntriesAfter(captures, k)[id] == HistoryEntry(captures, k, id))
  }

  lemma RefusedTells(captures: seq<Capture>, k: nat, id: string)
    requires k < |captures| && !Good(captures[k]) && Told(captures, k, id)
    ensures Told(captures, k + 1, id)
  {
    LibraryIsAlwaysWhole(captures, k);
    RefusedUnlessGood(LibraryAfter(captures, k), captures[k]);
    assert LibraryAfter(captures, k + 1) == LibraryAfter(captures, k);
  }

  lemma ListedTells(captures: seq<Capture>, k: nat, id: string)
    requires k < |captures| && Good(captures[k]) && id in IndexOf(captures[k].snapshot.value).entries
    ensures Told(captures, k + 1, id)
  {
    PromotedEntries(captures, k);
    LastListingIsPromoted(captures, k + 1, id);
  }

  lemma MissingTells(captures: seq<Capture>, k: nat, id: string)
    requires k < |captures| && Good(captures[k]) && id !in IndexOf(captures[k].snapshot.value).entries
    requires Told(captures, k, id)
    ensures Told(captures, k + 1, id)
  {
    PromotedEntries(captures, k);
    LastListingIsPromoted(captures, k, id);
    LastListingIsPromoted(captures, k + 1, id);
  }

  lemma NothingToTell(captures: seq<Capture>, id: string)
    ensures Told(captures, 0, id)
  {
    assert EntriesAfter(captures, 0) == map[];
  }

  lemma StepTells(captures: seq<Capture>, k: nat, id: string)
    requires k < |captures| && Told(captures, k, id)
    ensures Told(captures, k + 1, id)
  {
    if !Good(captures[k]) {
      RefusedTells(captures, k, id);
    } else if id in IndexOf(captures[k].snapshot.value).entries {
      ListedTells(captures, k, id);
    } else {
      MissingTells(captures, k, id);
    }
  }

  /** Over every run of captures, refused ones included: the library holds exactly the
      books some promoted capture listed, so it never shrinks; each with the facts of the
      last capture that listed it, `lastSeenAt` the time of that capture, and
      `missingFromSource` set exactly if the latest promoted capture no longer lists it. */
  lemma {:induction false} EntriesCarryTheirHistory(captures: seq<Capture>, k: nat, id: string)
    requires k <= |captures|
    ensures Told(captures, k, id)
  {
    if k == 0 {
      NothingToTell(captures, id);
    } else {
      EntriesCarryTheirHistory(captures, k - 1, id);
      StepTells(captures, k - 1, id);
    }
  }

  /** No book ever leaves the library. */
  lemma {:induction false} LibraryNeverShrinks(captures: seq<Capture>, i: nat, k: nat)
    requires i <= k <= |captures|
    ensures EntriesAfter(captures, i).Keys <= EntriesAfter(captures, k).Keys
  {
    if i == k {
    } else {
      LibraryNeverShrinks(captures, i, k - 1);
      forall id | id in EntriesAfter(captures, k - 1) ensures id in EntriesAfter(captures, k) {
        EntryStays(captures, k - 1, id);
      }
    }
  }

  lemma EntryStays(captures: seq<Capture>, k: nat, id: string)
    requires k < |captures| && id in EntriesAfter(captures, k)
    ensures id in EntriesAfter(captures, k + 1)
  {
    EntriesCarryTheirHistory(captures, k, id);
    EntriesCarryTheirHistory(captures, k + 1, id);
  }
}
