/** What every source record becomes: its book with the ids of its own authors, narrators, genres
    and series, and its entry (`normalize_library` of connector/atnr_connector/normalize.py). */
module NormalizeCredits {
  import opened Texts
  import opened Normalize
  import opened NormalizeLaws
  import Feedback
  import Library

  function Contributed(list: RawContributors): seq<RawContributor> { if list.List? then list.items else [] }

  /** The id of the contributor at place `j` of a list, from the source's identifier or, without
      one, from book, role and place. */
  function ContributorId(d: Digest, asin: string, raw: RawContributor, role: string, j: nat): string
    requires raw.Contributor?
  {
    "aud-us-person-" + d(
      if Optional(raw.asin, 128).Some? then "provider-id:" + Optional(raw.asin, 128).value
      else "occurrence:us:" + asin + ":" + role + ":" + Feedback.Decimal(j))
  }

  ghost predicate NamedIn(d: Digest, asin: string, list: RawContributors, role: string, id: string) {
    exists j :: 0 <= j < |Contributed(list)|
      && Contributed(list)[j].Contributor? && id == ContributorId(d, asin, Contributed(list)[j], role, j)
  }

  function GenreId(d: Digest, asin: string, ladder: RawLadder, j: nat): string
    requires ladder.Leaf?
  {
    "aud-us-genre-" + d(
      if Optional(ladder.id, 128).Some? then "provider-id:" + Optional(ladder.id, 128).value
      else "occurrence:us:" + asin + ":genre:" + Feedback.Decimal(j))
  }

  /** One of the first twenty ladders ends in a usable name under that id. */
  ghost predicate ShelvedIn(d: Digest, asin: string, ladders: seq<RawLadder>, id: string) {
    exists j :: 0 <= j < |ladders| && j < 20
      && ladders[j].Leaf? && Optional(ladders[j].name, 200).Some? && id == GenreId(d, asin, ladders[j], j)
  }

  function SeriesId(d: Digest, asin: string, series: RawSeries): string {
    if series.NoSeries? then ""
    else "aud-us-series-" + d(
      if Optional(series.asin, 128).Some? then "provider-id:" + Optional(series.asin, 128).value
      else "occurrence:us:" + asin + ":series")
  }

  /** The book of a record. */
  ghost predicate BookTells(d: Digest, raw: RawRecord, b: Library.Book) {
    && raw.RawRecord? && Required(raw.asin, 128).Ok? && Required(raw.title, 200).Ok?
    && var asin := Required(raw.asin, 128).value;
       && b.bookId == "aud-us-book-" + d("us:" + asin) && b.details == Required(raw.title, 200).value
       && (forall id :: id in b.authorIds <==> NamedIn(d, asin, raw.authors, "author", id))
       && (forall id :: id in b.narratorIds <==> NamedIn(d, asin, raw.narrators, "narrator", id))
       && (forall id :: id in b.genreIds <==> ShelvedIn(d, asin, raw.ladders, id))
       && b.themeIds == [] && b.seriesId == SeriesId(d, asin, raw.series)
  }

  /** How far a record says the owner got: finished if it says so or in a word, otherwise as a
      word or the percentage says. */
  ghost predicate StatusTells(raw: RawRecord, status: string)
    requires raw.RawRecord?
  {
    var word := if Optional(raw.listening, 64).Some? then Lower(Optional(raw.listening, 64).value) else "";
    var finished, started, unstarted := raw.finished || word in {"finished", "completed"},
        word in {"in_progress", "in-progress", "started"}, word in {"not_started", "not-started"};
    && (status == "completed" <==> finished)
    && (status == "in-progress" <==> !finished && (started || (!unstarted && raw.progress.Percent? && raw.progress.value > 0.0)))
    && (status == "not-started" <==>
          !finished && !started && (unstarted || (raw.progress.Percent? && raw.progress.value <= 0.0)))
    && (status == "unknown" <==> !finished && !started && !unstarted && !raw.progress.Percent?)
  }

  /** The entry of a record. */
  ghost predicate EntryTells(d: Digest, raw: RawRecord, at: int, e: Library.Entry) {
    && raw.RawRecord? && Required(raw.asin, 128).Ok?
    && e.bookId == "aud-us-book-" + d("us:" + Required(raw.asin, 128).value)
    && StatusTells(raw, e.facts.status)
    && e.facts.percentComplete == (if raw.progress.Percent? then Some(raw.progress.value) else None)
    && e.facts.acquiredAt == raw.purchased
    && e.facts.positionSeconds.None? && e.facts.lastListenedAt.None? && e.facts.completedAt.None?
    && e.provenance.observedAt == at && !e.missingFromSource
  }

  // ---- One record ---------------------------------------------------------------

  lemma ResolvedOneMore(d: Digest, raws: seq<RawContributor>, role: Role, key: string, people: People)
    requires raws != [] && ResolvedFrom(d, raws, role, key, people).Ok?
    ensures var n, before := |raws| - 1, ResolvedFrom(d, raws[..|raws| - 1], role, key, people);
      && before.Ok? && raws[n].Contributor?
      && ResolvedFrom(d, raws, role, key, people).value.ids == before.value.ids + [PersonId(d, raws[n], Occurrence(key, role, n))]
  {
  }

  ghost predicate IdsByPlace(d: Digest, raws: seq<RawContributor>, role: Role, key: string, ids: seq<string>) {
    && |ids| == |raws|
    && forall j :: 0 <= j < |raws| ==> raws[j].Contributor? && ids[j] == PersonId(d, raws[j], Occurrence(key, role, j))
  }

  lemma {:induction false} ResolvedIds(d: Digest, raws: seq<RawContributor>, role: Role, key: string, people: People)
    requires ResolvedFrom(d, raws, role, key, people).Ok?
    ensures IdsByPlace(d, raws, role, key, ResolvedFrom(d, raws, role, key, people).value.ids)
  {
    if raws == [] {
    } else {
      var n := |raws| - 1;
      ResolvedOneMore(d, raws, role, key, people);
      ResolvedIds(d, raws[..n], role, key, people);
      OnePlaceMore(d, raws, role, key, ResolvedFrom(d, raws[..n], role, key, people).value.ids);
    }
  }

  lemma OnePlaceMore(d: Digest, raws: seq<RawContributor>, role: Role, key: string, ids: seq<string>)
    requires raws != [] && raws[|raws| - 1].Contributor? && IdsByPlace(d, raws[..|raws| - 1], role, key, ids)
    ensures IdsByPlace(d, raws, role, key, ids + [PersonId(d, raws[|raws| - 1], Occurrence(key, role, |raws| - 1))])
  {
    var front := raws[..|raws| - 1];
    assert forall j :: 0 <= j < |front| ==> front[j] == raws[j];
  }

  lemma IdentifierIsSpelledOut(d: Digest, value: string)
    ensures Identifier(d, "person", value) == "aud-us-person-" + d(value)
    ensures Identifier(d, "genre", value) == "aud-us-genre-" + d(value)
    ensures Identifier(d, "series", value) == "aud-us-series-" + d(value)
    ensures Identifier(d, "book", value) == "aud-us-book-" + d(value)
  {
    assert "aud-us-" + "person" + "-" == "aud-us-person-";
    assert "aud-us-" + "genre" + "-" == "aud-us-genre-";
    assert "aud-us-" + "series" + "-" == "aud-us-series-";
    assert "aud-us-" + "book" + "-" == "aud-us-book-";
  }

  lemma OccurrenceIsSpelledOut(asin: string, role: Role, j: nat)
    ensures "occurrence:" + Occurrence(BookKey(asin), role, j)
         == "occurrence:us:" + asin + ":" + RoleName(role) + ":" + Feedback.Decimal(j)
  {
    var rest := asin + ":" + RoleName(role) + ":" + Feedback.Decimal(j);
    assert Occurrence(BookKey(asin), role, j) == "us:" + rest;
    assert "occurrence:" + ("us:" + rest) == "occurrence:us:" + rest;
    assert "occurrence:us:" + asin + ":" + RoleName(role) + ":" + Feedback.Decimal(j) == "occurrence:us:" + rest;
  }

  lemma IdIsSpelledOut(d: Digest, asin: string, raw: RawContributor, role: Role, j: nat)
    requires raw.Contributor?
    ensures PersonId(d, raw, Occurrence(BookKey(asin), role, j)) == ContributorId(d, asin, raw, RoleName(role), j)
  {
    OccurrenceIsSpelledOut(asin, role, j);
    IdentifierIsSpelledOut(d, Identity(raw, Occurrence(BookKey(asin), role, j)));
  }

  lemma NamedByPlace(d: Digest, asin: string, list: RawContributors, role: Role, ids: seq<string>, id: string)
    requires IdsByPlace(d, Contributed(list), role, BookKey(asin), ids)
    ensures id in AsSet(ids) <==> NamedIn(d, asin, list, RoleName(role), id)
  {
    var raws := Contributed(list);
    forall j | 0 <= j < |raws| ensures ids[j] == ContributorId(d, asin, raws[j], RoleName(role), j) {
      IdIsSpelledOut(d, asin, raws[j], role, j);
    }
    if id in AsSet(ids) {
      var j :| 0 <= j < |ids| && ids[j] == id;
      assert raws[j].Contributor?;
    }
    if NamedIn(d, asin, list, RoleName(role), id) {
      var j :| 0 <= j < |raws| && raws[j].Contributor? && id == ContributorId(d, asin, raws[j], RoleName(role), j);
      assert ids[j] == id;
    }
  }

  lemma ContributorsAreNamed(d: Digest, asin: string, list: RawContributors, role: Role, people: People, id: string)
    requires ContributorsOf(d, list, role, BookKey(asin), people).Ok?
    ensures id in AsSet(ContributorsOf(d, list, role, BookKey(asin), people).value.ids)
       <==> NamedIn(d, asin, list, RoleName(role), id)
  {
    if list.List? { ResolvedIds(d, list.items, role, BookKey(asin), people); }
    NamedByPlace(d, asin, list, role, ContributorsOf(d, list, role, BookKey(asin), people).value.ids, id);
  }

  ghost predicate ShelvedAmong(d: Digest, ladders: seq<RawLadder>, key: string, id: string) {
    exists j :: 0 <= j < |ladders| && Usable(ladders[j]) && id == GenreOf(d, ladders[j], key, j).facetId
  }

  lemma ShelvedOneMore(d: Digest, ladders: seq<RawLadder>, key: string, id: string)
    requires ladders != []
    ensures var n := |ladders| - 1;
      ShelvedAmong(d, ladders, key, id) <==>
        ShelvedAmong(d, ladders[..n], key, id) || (Usable(ladders[n]) && id == GenreOf(d, ladders[n], key, n).facetId)
  {
    var n := |ladders| - 1;
    assert forall j :: 0 <= j < n ==> ladders[..n][j] == ladders[j];
    if ShelvedAmong(d, ladders[..n], key, id) {
      var j :| 0 <= j < n && Usable(ladders[..n][j]) && id == GenreOf(d, ladders[..n][j], key, j).facetId;
      assert Usable(ladders[j]);
    }
  }

  lemma {:induction false} ShelvedIds(d: Digest, ladders: seq<RawLadder>, key: string, facets: Facets, id: string)
    ensures id in ShelvedFrom(d, ladders, key, facets).ids <==> ShelvedAmong(d, ladders, key, id)
  {
    if ladders == [] {
    } else {
      ShelvedIds(d, ladders[..|ladders| - 1], key, facets, id);
      ShelvedOneMore(d, ladders, key, id);
    }
  }

  lemma GenreIsSpelledOut(d: Digest, asin: string, ladder: RawLadder, j: nat)
    requires Usable(ladder)
    ensures GenreOf(d, ladder, BookKey(asin), j).facetId == GenreId(d, asin, ladder, j)
  {
    var rest := asin + ":genre:" + Feedback.Decimal(j);
    assert "occurrence:" + BookKey(asin) + ":genre:" + Feedback.Decimal(j) == "occurrence:" + ("us:" + rest);
    assert "occurrence:us:" + asin + ":genre:" + Feedback.Decimal(j) == "occurrence:" + ("us:" + rest);
    var provider := Optional(ladder.id, 128);
    IdentifierIsSpelledOut(d, if provider.Some? then "provider-id:" + provider.value
                              else "occurrence:" + BookKey(asin) + ":genre:" + Feedback.Decimal(j));
  }

  lemma CategoriesAreShelved(d: Digest, asin: string, ladders: seq<RawLadder>, facets: Facets, id: string)
    ensures id in CategoriesOf(d, ladders, BookKey(asin), facets).ids <==> ShelvedIn(d, asin, ladders, id)
  {
    var first := if |ladders| > CATEGORY_LADDER_LIMIT then ladders[..CATEGORY_LADDER_LIMIT] else ladders;
    ShelvedIds(d, first, BookKey(asin), facets, id);
    SortedIdsElements(AsSet(ShelvedFrom(d, first, BookKey(asin), facets).ids));
    forall j | 0 <= j < |first| && Usable(first[j])
      ensures GenreOf(d, first[j], BookKey(asin), j).facetId == GenreId(d, asin, ladders[j], j)
    {
      GenreIsSpelledOut(d, asin, first[j], j);
    }
    if ShelvedIn(d, asin, ladders, id) {
      var j :| 0 <= j < |ladders| && j < 20
        && ladders[j].Leaf? && Optional(ladders[j].name, 200).Some? && id == GenreId(d, asin, ladders[j], j);
      assert Usable(first[j]);
    }
  }

  lemma SeriesIsSpelledOut(d: Digest, asin: string, raw: RawSeries, facets: Facets)
    requires SeriesOf(d, raw, BookKey(asin), facets).Ok?
    ensures var id := SeriesOf(d, raw, BookKey(asin), facets).value.seriesId;
      (if id.Some? then id.value else "") == SeriesId(d, asin, raw)
  {
    if raw.Series? {
      assert "occurrence:" + BookKey(asin) + ":series" == "occurrence:us:" + asin + ":series";
      var provider := Optional(raw.asin, 128);
      IdentifierIsSpelledOut(d, if provider.Some? then "provider-id:" + provider.value
                                else "occurrence:" + BookKey(asin) + ":series");
    }
  }

  /** Where the parts of a record come from. */
  lemma PartsComeFrom(d: Digest, raw: RawRecord, key: string, people: People, facets: Facets)
    requires raw.RawRecord? && PartsOf(d, raw, key, people, facets).Ok?
    ensures var p := PartsOf(d, raw, key, people, facets).value;
      && ContributorsOf(d, raw.authors, Author, key, people) == Ok(p.authors)
      && ContributorsOf(d, raw.narrators, Narrator, key, p.authors.people) == Ok(p.narrators)
      && SeriesOf(d, raw.series, key, facets) == Ok(p.series)
      && p.shelved == CategoriesOf(d, raw.ladders, key, p.series.facets)
      && p.percent == (if raw.progress.Percent? then Some(raw.progress.value) else None)
  {
  }

  lemma BookOfParts(d: Digest, asin: string, title: string, raw: RawRecord, people: People, facets: Facets)
    requires raw.RawRecord? && Required(raw.asin, 128) == Ok(asin) && Required(raw.title, 200) == Ok(title)
    requires PartsOf(d, raw, BookKey(asin), people, facets).Ok?
    ensures BookTells(d, raw, BookOf(Identifier(d, "book", BookKey(asin)), title, PartsOf(d, raw, BookKey(asin), people, facets).value))
  {
    var p := PartsOf(d, raw, BookKey(asin), people, facets).value;
    PartsComeFrom(d, raw, BookKey(asin), people, facets);
    IdentifierIsSpelledOut(d, BookKey(asin));
    SortedIdsElements(AsSet(p.authors.ids));
    SortedIdsElements(AsSet(p.narrators.ids));
    forall id ensures id in AsSet(p.authors.ids) <==> NamedIn(d, asin, raw.authors, "author", id) {
      ContributorsAreNamed(d, asin, raw.authors, Author, people, id);
    }
    forall id ensures id in AsSet(p.narrators.ids) <==> NamedIn(d, asin, raw.narrators, "narrator", id) {
      ContributorsAreNamed(d, asin, raw.narrators, Narrator, p.authors.people, id);
    }
    forall id ensures id in p.shelved.ids <==> ShelvedIn(d, asin, raw.ladders, id) {
      CategoriesAreShelved(d, asin, raw.ladders, p.series.facets, id);
    }
    SeriesIsSpelledOut(d, asin, raw.series, facets);
  }

  lemma StatusIsTold(raw: RawRecord, percent: Option<real>)
    requires raw.RawRecord? && ProgressOf(raw.progress) == Ok(percent)
    ensures StatusTells(raw, Status(raw, percent))
    ensures percent == (if raw.progress.Percent? then Some(raw.progress.value) else None)
  {
  }

  lemma EntryOfParts(d: Digest, raw: RawRecord, asin: string, percent: Option<real>, at: int)
    requires raw.RawRecord? && Required(raw.asin, 128) == Ok(asin) && ProgressOf(raw.progress) == Ok(percent)
    ensures EntryTells(d, raw, at, EntryOf(raw, Identifier(d, "book", BookKey(asin)), percent, at))
  {
    IdentifierIsSpelledOut(d, BookKey(asin));
    StatusIsTold(raw, percent);
  }

  lemma RecordComesFrom(d: Digest, at: int, raw: RawRecord, s: State)
    requires RecordStep(d, at, raw, s).Ok?
    ensures raw.RawRecord? && Required(raw.asin, 128).Ok? && Required(raw.title, 200).Ok?
    ensures
      var key, next := BookKey(Required(raw.asin, 128).value), RecordStep(d, at, raw, s).value;
      var id, parts := Identifier(d, "book", key), PartsOf(d, raw, key, s.people, s.facets);
      && parts.Ok? && ProgressOf(raw.progress) == Ok(parts.value.percent)
      && next.books == s.books + [BookOf(id, Required(raw.title, 200).value, parts.value)]
      && next.entries == s.entries + [EntryOf(raw, id, parts.value.percent, at)]
  {
  }

  // ---- Every record ------------------------------------------------------------------

  ghost predicate RecordsTold(d: Digest, at: int, items: seq<RawRecord>, books: seq<Library.Book>, entries: seq<Library.Entry>) {
    && |books| == |entries| == |items|
    && forall i :: 0 <= i < |items| ==> BookTells(d, items[i], books[i]) && EntryTells(d, items[i], at, entries[i])
  }

  lemma OneRecordMore(d: Digest, at: int, items: seq<RawRecord>, books: seq<Library.Book>, entries: seq<Library.Entry>,
                      b: Library.Book, e: Library.Entry)
    requires items != [] && RecordsTold(d, at, items[..|items| - 1], books, entries)
    requires BookTells(d, items[|items| - 1], b) && EntryTells(d, items[|items| - 1], at, e)
    ensures RecordsTold(d, at, items, books + [b], entries + [e])
  {
    var n := |items| - 1;
    forall i | 0 <= i < |items|
      ensures BookTells(d, items[i], (books + [b])[i]) && EntryTells(d, items[i], at, (entries + [e])[i])
    {
      if i < n { assert items[..n][i] == items[i]; }
    }
  }

  lemma {:induction false} GatheredTells(d: Digest, at: int, items: seq<RawRecord>)
    requires Gathered(d, at, items).Ok?
    ensures RecordsTold(d, at, items, Gathered(d, at, items).value.books, Gathered(d, at, items).value.entries)
  {
    if items == [] {
    } else {
      var front, raw := items[..|items| - 1], items[|items| - 1];
      var s := Gathered(d, at, front).value;
      GatheredTells(d, at, front);
      RecordComesFrom(d, at, raw, s);
      var asin, title := Required(raw.asin, 128).value, Required(raw.title, 200).value;
      var p := PartsOf(d, raw, BookKey(asin), s.people, s.facets).value;
      BookOfParts(d, asin, title, raw, s.people, s.facets);
      EntryOfParts(d, raw, asin, p.percent, at);
      OneRecordMore(d, at, items, s.books, s.entries, BookOf(Identifier(d, "book", BookKey(asin)), title, p),
                    EntryOf(raw, Identifier(d, "book", BookKey(asin)), p.percent, at));
    }
  }

  /** Place `k` of the snapshot holds the book and the entry of the record. */
  ghost predicate Emits(d: Digest, raw: RawRecord, at: int, out: Library.Snapshot, k: nat) {
    && k < |out.catalog.books| && k < |out.entries|
    && BookTells(d, raw, out.catalog.books[k]) && EntryTells(d, raw, at, out.entries[k])
  }

  lemma SortedHolds<T>(records: seq<T>, id: T -> string, i: nat) returns (k: nat)
    requires Library.DistinctIds(records, id) && i < |records|
    ensures var sorted := SortedValues(Library.IndexBy(records, id)); k < |sorted| && sorted[k] == records[i]
  {
    var m := Library.IndexBy(records, id);
    Library.IndexOfDistinct(records, id);
    SortedValuesAt(m);
    SortedIdsElements(m.Keys);
    k :| 0 <= k < |SortedIds(m.Keys)| && SortedIds(m.Keys)[k] == id(records[i]);
  }

  /** Whenever a library is normalized, every record has its book, naming exactly its own authors
      as authors, its own narrators as narrators, its genres and its series, beside its entry. */
  lemma RecordsAreEmitted(d: Digest, items: seq<RawRecord>, observedAt: Option<int>, i: nat) returns (k: nat)
    requires Normalized(d, items, "us", observedAt).Ok? && i < |items|
    ensures Emits(d, items[i], observedAt.value, Normalized(d, items, "us", observedAt).value, k)
  {
    var at, out := observedAt.value, Normalized(d, items, "us", observedAt).value;
    var s := Gathered(d, at, items).value;
    GatheredKeepsInv(d, at, items);
    EntriesAreDistinct(s);
    k := SortedHolds(s.books, Library.BookId, i);
    var l := SortedHolds(s.entries, Library.EntryId, i);
    EmittedIsInOrder(s, at);
    SamePlace(out, k, l);
    TellsAt(d, at, items, s.books, s.entries, i);
  }

  lemma TellsAt(d: Digest, at: int, items: seq<RawRecord>, books: seq<Library.Book>, entries: seq<Library.Entry>, i: nat)
    requires Gathered(d, at, items).Ok? && i < |items|
    requires books == Gathered(d, at, items).value.books && entries == Gathered(d, at, items).value.entries
    ensures |books| == |entries| == |items| && BookTells(d, items[i], books[i]) && EntryTells(d, items[i], at, entries[i])
  {
    GatheredTells(d, at, items);
  }

  lemma SamePlace(out: Library.Snapshot, k: nat, l: nat)
    requires InOrder(out.catalog, out.entries) && k < |out.catalog.books| && l < |out.entries|
    requires out.catalog.books[k].bookId == out.entries[l].bookId
    ensures k == l
  {
    LessTotal(out.catalog.books[k].bookId, out.catalog.books[l].bookId);
  }

  // ---- Who the people are ------------------------------------------------------------

  /** One of the contributors of a list has the id, and that name. */
  ghost predicate GivenIn(d: Digest, key: string, raws: seq<RawContributor>, role: Role, id: string, name: string) {
    exists j :: 0 <= j < |raws| && raws[j].Contributor?
      && id == PersonId(d, raws[j], Occurrence(key, role, j)) && Required(raws[j].name, 200) == Ok(name)
  }

  lemma GivenInMore(d: Digest, key: string, raws: seq<RawContributor>, role: Role, id: string, name: string)
    requires raws != [] && GivenIn(d, key, raws[..|raws| - 1], role, id, name)
    ensures GivenIn(d, key, raws, role, id, name)
  {
    var front := raws[..|raws| - 1];
    var j :| 0 <= j < |front| && front[j].Contributor?
      && id == PersonId(d, front[j], Occurrence(key, role, j)) && Required(front[j].name, 200) == Ok(name);
    assert raws[j] == front[j];
  }

  lemma OneNameMore(d: Digest, raws: seq<RawContributor>, role: Role, key: string, people: People, id: string)
    requires raws != [] && ResolvedFrom(d, raws, role, key, people).Ok?
    requires id in ResolvedFrom(d, raws, role, key, people).value.people
    ensures ResolvedFrom(d, raws[..|raws| - 1], role, key, people).Ok?
    ensures
      var before := ResolvedFrom(d, raws[..|raws| - 1], role, key, people).value.people;
      var named := ResolvedFrom(d, raws, role, key, people).value.people[id].name;
      if id in before then named == before[id].name else GivenIn(d, key, raws, role, id, named)
  {
    var n := |raws| - 1;
    var after := ResolvedFrom(d, raws, role, key, people).value.people;
    assert PersonError(raws[n]).None?;
    if id !in ResolvedFrom(d, raws[..n], role, key, people).value.people {
      LastGives(d, key, raws, role, id, after[id].name);
    }
  }

  lemma LastGives(d: Digest, key: string, raws: seq<RawContributor>, role: Role, id: string, name: string)
    requires raws != [] && raws[|raws| - 1].Contributor? && Required(raws[|raws| - 1].name, 200) == Ok(name)
    requires id == PersonId(d, raws[|raws| - 1], Occurrence(key, role, |raws| - 1))
    ensures GivenIn(d, key, raws, role, id, name)
  {
  }

  /** A known person keeps the name given first; a new one has the name of its contributor. */
  lemma {:induction false} ResolvedNames(d: Digest, raws: seq<RawContributor>, role: Role, key: string, people: People, id: string)
    requires ResolvedFrom(d, raws, role, key, people).Ok?
    requires id in ResolvedFrom(d, raws, role, key, people).value.people
    ensures var named := ResolvedFrom(d, raws, role, key, people).value.people[id].name;
      if id in people then named == people[id].name else GivenIn(d, key, raws, role, id, named)
  {
    if raws == [] {
    } else {
      var n := |raws| - 1;
      var before := ResolvedFrom(d, raws[..n], role, key, people).value.people;
      KnownStay(d, raws[..n], role, key, people);
      OneNameMore(d, raws, role, key, people, id);
      if id in before {
        ResolvedNames(d, raws[..n], role, key, people, id);
        if id !in people { GivenInMore(d, key, raws, role, id, before[id].name); }
      }
    }
  }

  lemma KnownStay(d: Digest, raws: seq<RawContributor>, role: Role, key: string, people: People)
    requires ResolvedFrom(d, raws, role, key, people).Ok?
    ensures people.Keys <= ResolvedFrom(d, raws, role, key, people).value.people.Keys
  {
    ResolvedArePeople(d, raws, role, key, people);
  }

  lemma ContributorNames(d: Digest, list: RawContributors, role: Role, key: string, people: People, id: string)
    requires ContributorsOf(d, list, role, key, people).Ok?
    requires id in ContributorsOf(d, list, role, key, people).value.people
    ensures var named := ContributorsOf(d, list, role, key, people).value.people[id].name;
      if id in people then named == people[id].name else GivenIn(d, key, Contributed(list), role, id, named)
  {
    if list.List? { ResolvedNames(d, list.items, role, key, people, id); }
  }

  /** The record credits someone of that id with that name. */
  ghost predicate Gives(d: Digest, raw: RawRecord, id: string, name: string) {
    && raw.RawRecord? && Required(raw.asin, 128).Ok?
    && var key := "us:" + Required(raw.asin, 128).value;
       GivenIn(d, key, Contributed(raw.authors), Author, id, name) || GivenIn(d, key, Contributed(raw.narrators), Narrator, id, name)
  }

  lemma RecordNames(d: Digest, at: int, raw: RawRecord, s: State, id: string)
    requires RecordStep(d, at, raw, s).Ok? && id in RecordStep(d, at, raw, s).value.people
    ensures var named := RecordStep(d, at, raw, s).value.people[id].name;
      if id in s.people then named == s.people[id].name else Gives(d, raw, id, named)
  {
    var key := BookKey(Required(raw.asin, 128).value);
    PartsComeFrom(d, raw, key, s.people, s.facets);
    var p := PartsOf(d, raw, key, s.people, s.facets).value;
    ContributorsArePeople(d, raw.authors, Author, key, s.people);
    ContributorsArePeople(d, raw.narrators, Narrator, key, p.authors.people);
    ContributorNames(d, raw.narrators, Narrator, key, p.authors.people, id);
    if id in p.authors.people { ContributorNames(d, raw.authors, Author, key, s.people, id); }
  }

  /** The record first to credit a person names it. */
  ghost predicate NamedFirstBy(d: Digest, items: seq<RawRecord>, people: People, id: string, i: nat) {
    i < |items| && id in people && Gives(d, items[i], id, people[id].name)
  }

  lemma {:induction false} GatheredNames(d: Digest, at: int, items: seq<RawRecord>, id: string) returns (i: nat)
    requires Gathered(d, at, items).Ok? && id in Gathered(d, at, items).value.people
    ensures NamedFirstBy(d, items, Gathered(d, at, items).value.people, id, i)
  {
    var n := |items| - 1;
    var before := Gathered(d, at, items[..n]).value;
    RecordNames(d, at, items[n], before, id);
    if id in before.people {
      i := GatheredNames(d, at, items[..n], id);
      assert items[..n][i] == items[i];
    } else {
      i := n;
    }
  }

  /** Every person of the catalog is a contributor of some record, under a name that record gives. */
  lemma PeopleAreContributors(d: Digest, items: seq<RawRecord>, observedAt: Option<int>, k: nat) returns (i: nat)
    requires Normalized(d, items, "us", observedAt).Ok?
    requires k < |Normalized(d, items, "us", observedAt).value.catalog.people|
    ensures var person := Normalized(d, items, "us", observedAt).value.catalog.people[k];
      i < |items| && Gives(d, items[i], person.personId, person.details)
  {
    var people := Gathered(d, observedAt.value, items).value.people;
    SortedValuesAt(PublishedPeople(people));
    var id := SortedIds(PublishedPeople(people).Keys)[k];
    i := GatheredNames(d, observedAt.value, items, id);
  }

  // ---- What the facets are -------------------------------------------------------------

  /** One of the ladders ends in that name, under that id. */
  ghost predicate LeafIn(d: Digest, asin: string, ladders: seq<RawLadder>, id: string, name: string) {
    exists j :: 0 <= j < |ladders|
      && ladders[j].Leaf? && Optional(ladders[j].name, 200) == Some(name) && id == GenreId(d, asin, ladders[j], j)
  }

  lemma LeafInMore(d: Digest, asin: string, ladders: seq<RawLadder>, n: nat, id: string, name: string)
    requires n <= |ladders| && LeafIn(d, asin, ladders[..n], id, name)
    ensures LeafIn(d, asin, ladders, id, name)
  {
    var front := ladders[..n];
    var j :| 0 <= j < |front|
      && front[j].Leaf? && Optional(front[j].name, 200) == Some(name) && id == GenreId(d, asin, front[j], j);
    assert ladders[j] == front[j];
  }

  lemma OneLeafMore(d: Digest, asin: string, ladders: seq<RawLadder>, facets: Facets, id: string)
    requires ladders != [] && id in ShelvedFrom(d, ladders, BookKey(asin), facets).facets
    ensures
      var before := ShelvedFrom(d, ladders[..|ladders| - 1], BookKey(asin), facets).facets;
      var named := ShelvedFrom(d, ladders, BookKey(asin), facets).facets[id].name;
      if id in before then named == before[id].name else LeafIn(d, asin, ladders, id, named)
  {
    var n := |ladders| - 1;
    if Usable(ladders[n]) { GenreIsSpelledOut(d, asin, ladders[n], n); }
  }

  lemma {:induction false} ShelvedNames(d: Digest, asin: string, ladders: seq<RawLadder>, facets: Facets, id: string)
    requires id in ShelvedFrom(d, ladders, BookKey(asin), facets).facets
    ensures var named := ShelvedFrom(d, ladders, BookKey(asin), facets).facets[id].name;
      if id in facets then named == facets[id].name else LeafIn(d, asin, ladders, id, named)
  {
    if ladders == [] {
    } else {
      var n := |ladders| - 1;
      var before := ShelvedFrom(d, ladders[..n], BookKey(asin), facets).facets;
      OneLeafMore(d, asin, ladders, facets, id);
      ShelvedKeeps(d, ladders[..n], BookKey(asin), facets);
      if id in before {
        ShelvedNames(d, asin, ladders[..n], facets, id);
        if id !in facets { LeafInMore(d, asin, ladders, n, id, before[id].name); }
      }
    }
  }

  lemma {:induction false} ShelvedKeeps(d: Digest, ladders: seq<RawLadder>, key: string, facets: Facets)
    ensures facets.Keys <= ShelvedFrom(d, ladders, key, facets).facets.Keys
  {
    if ladders != [] { ShelvedKeeps(d, ladders[..|ladders| - 1], key, facets); }
  }

  /** The record has a series or, in its first twenty ladders, a genre of that id with that name. */
  ghost predicate Shelves(d: Digest, raw: RawRecord, id: string, name: string) {
    && raw.RawRecord? && Required(raw.asin, 128).Ok?
    && var asin := Required(raw.asin, 128).value;
       || (raw.series.Series? && Required(raw.series.name, 200) == Ok(name) && id == SeriesId(d, asin, raw.series))
       || LeafIn(d, asin, if |raw.ladders| > 20 then raw.ladders[..20] else raw.ladders, id, name)
  }

  lemma SeriesNames(d: Digest, asin: string, raw: RawSeries, facets: Facets, id: string)
    requires SeriesOf(d, raw, BookKey(asin), facets).Ok?
    requires id in SeriesOf(d, raw, BookKey(asin), facets).value.facets
    ensures var named := SeriesOf(d, raw, BookKey(asin), facets).value.facets[id].name;
      if id in facets then named == facets[id].name
      else raw.Series? && Required(raw.name, 200) == Ok(named) && id == SeriesId(d, asin, raw)
  {
    SeriesIsSpelledOut(d, asin, raw, facets);
  }

  lemma RecordFacets(d: Digest, at: int, raw: RawRecord, s: State, id: string)
    requires RecordStep(d, at, raw, s).Ok? && id in RecordStep(d, at, raw, s).value.facets
    ensures var named := RecordStep(d, at, raw, s).value.facets[id].name;
      if id in s.facets then named == s.facets[id].name else Shelves(d, raw, id, named)
  {
    var asin := Required(raw.asin, 128).value;
    PartsComeFrom(d, raw, BookKey(asin), s.people, s.facets);
    var p := PartsOf(d, raw, BookKey(asin), s.people, s.facets).value;
    var first := if |raw.ladders| > 20 then raw.ladders[..20] else raw.ladders;
    assert p.shelved.facets == ShelvedFrom(d, first, BookKey(asin), p.series.facets).facets;
    ShelvedNames(d, asin, first, p.series.facets, id);
    if id in p.series.facets { SeriesNames(d, asin, raw.series, s.facets, id); }
    SeriesKeeps(d, raw.series, BookKey(asin), s.facets);
  }

  lemma SeriesKeeps(d: Digest, raw: RawSeries, key: string, facets: Facets)
    requires SeriesOf(d, raw, key, facets).Ok?
    ensures facets.Keys <= SeriesOf(d, raw, key, facets).value.facets.Keys
  {
  }

  /** The record names the facet as the catalog does. */
  ghost predicate ShelvedFirstBy(d: Digest, items: seq<RawRecord>, facets: Facets, id: string, i: nat) {
    i < |items| && id in facets && Shelves(d, items[i], id, facets[id].name)
  }

  lemma {:induction false} GatheredFacets(d: Digest, at: int, items: seq<RawRecord>, id: string) returns (i: nat)
    requires Gathered(d, at, items).Ok? && id in Gathered(d, at, items).value.facets
    ensures ShelvedFirstBy(d, items, Gathered(d, at, items).value.facets, id, i)
  {
    var n := |items| - 1;
    var before := Gathered(d, at, items[..n]).value;
    RecordFacets(d, at, items[n], before, id);
    if id in before.facets {
      i := GatheredFacets(d, at, items[..n], id);
      assert items[..n][i] == items[i];
    } else {
      i := n;
    }
  }

  /** Every facet of the catalog is the series or a genre of some record, under the name that record gives. */
  lemma FacetsAreGiven(d: Digest, items: seq<RawRecord>, observedAt: Option<int>, k: nat) returns (i: nat)
    requires Normalized(d, items, "us", observedAt).Ok?
    requires k < |Normalized(d, items, "us", observedAt).value.catalog.facets|
    ensures var facet := Normalized(d, items, "us", observedAt).value.catalog.facets[k];
      i < |items| && Shelves(d, items[i], facet.facetId, facet.details)
  {
    var facets := Gathered(d, observedAt.value, items).value.facets;
    SortedValuesAt(PublishedFacets(facets));
    var id := SortedIds(PublishedFacets(facets).Keys)[k];
    i := GatheredFacets(d, observedAt.value, items, id);
  }
}
