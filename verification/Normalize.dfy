/** Normalizing source records into the snapshot contract: `normalize_library` and its
    helpers in connector/atnr_connector/normalize.py. The truncated SHA-256 of an
    identifier is an arbitrary function from texts to texts. */
module Normalize {
  import opened Texts
  import Feedback
  import Library
  import Reconcile

  type Digest = string -> string

  const CONTRIBUTOR_LIMIT := 50
  const CATEGORY_LADDER_LIMIT := 20
  const SOURCE_NAME := "audible-community-private-api"

  datatype Code =
    | RequiredTextMissing | RequiredTextInvalid | TextTooLong
    | ContributorRecordInvalid | ContributorListInvalid | ContributorLimitExceeded
    | ProgressValueInvalid | ProgressValueOutOfRange
    | LibraryRecordInvalid | LibraryRecordDuplicate | MarketplaceNotAllowed | ObservedAtInvalid
    | EntryBookMissing | BookPersonMissing | BookFacetMissing

  datatype Failure = Failure(code: Code, recordIndex: Option<nat>)

  // ---- Source records --------------------------------------------------------

  datatype Field = Absent | NotText | Str(s: string)

  datatype RawContributor = NotAContributor | Contributor(name: Field, asin: Field)

  datatype RawContributors = NoList | NotAList | List(items: seq<RawContributor>)

  /** The first element of a series list, when it is an object. */
  datatype RawSeries = NoSeries | Series(name: Field, asin: Field)

  /** The last node of a category ladder, when it is an object. */
  datatype RawLadder = NoLeaf | Leaf(name: Field, id: Field)

  datatype RawProgress = NoProgress | NotANumber | Percent(value: real)

  datatype RawRecord = NotARecord | RawRecord(
    asin: Field, title: Field, authors: RawContributors, narrators: RawContributors,
    series: RawSeries, ladders: seq<RawLadder>, progress: RawProgress,
    finished: bool, listening: Field, purchased: Option<int>)

  predicate IsControl(c: char) {
    c as int < 9 || 10 < c as int < 13 || 13 < c as int < 32 || c as int == 127
  }

  function WithoutControls(s: string): string {
    if s == "" then "" else (if IsControl(s[0]) then "" else [s[0]]) + WithoutControls(s[1..])
  }

  function Cleaned(s: string): string { Strip(WithoutControls(s)) }

  /** `_text` with `required`. */
  function Required(f: Field, maximum: nat): Result<string, Code> {
    match f
    case Absent => Err(RequiredTextMissing)
    case NotText => Err(RequiredTextInvalid)
    case Str(s) =>
      if Cleaned(s) == "" then Err(RequiredTextMissing)
      else if |Cleaned(s)| > maximum then Err(TextTooLong)
      else Ok(Cleaned(s))
  }

  /** `_text` without it. */
  function Optional(f: Field, maximum: nat): Option<string> {
    if f.Str? && 0 < |Cleaned(f.s)| <= maximum then Some(Cleaned(f.s)) else None
  }

  function Identifier(digest: Digest, kind: string, value: string): string {
    "aud-us-" + kind + "-" + digest(value)
  }

  // ---- People ------------------------------------------------------------------

  datatype Role = Author | Narrator

  function RoleName(role: Role): string { if role.Author? then "author" else "narrator" }

  datatype Basis = ProviderId | SourceRecordOccurrence

  datatype Person = Person(personId: string, name: string, roles: seq<Role>, basis: Basis)

  datatype Facet = Facet(facetId: string, kind: string, name: string, basis: Basis)

  type People = map<string, Person>
  type Facets = map<string, Facet>

  /** `roles.append(role); roles.sort()` unless it is listed. */
  function WithRole(roles: seq<Role>, role: Role): seq<Role> {
    if role in roles then roles
    else if role.Author? then [role] + roles
    else roles + [role]
  }

  function Occurrence(bookKey: string, role: Role, index: nat): string {
    bookKey + ":" + RoleName(role) + ":" + Feedback.Decimal(index)
  }

  /** What a contributor's identity is computed from. */
  function Identity(raw: RawContributor, occurrence: string): string
    requires raw.Contributor?
  {
    if Optional(raw.asin, 128).Some? then "provider-id:" + Optional(raw.asin, 128).value
    else "occurrence:" + occurrence
  }

  function PersonId(digest: Digest, raw: RawContributor, occurrence: string): string
    requires raw.Contributor?
  {
    Identifier(digest, "person", Identity(raw, occurrence))
  }

  function PersonError(raw: RawContributor): Option<Code> {
    if raw.NotAContributor? then Some(ContributorRecordInvalid)
    else if Required(raw.name, 200).Err? then Some(Required(raw.name, 200).error)
    else None
  }

  function WithPerson(digest: Digest, raw: RawContributor, role: Role, occurrence: string, people: People): People
    requires PersonError(raw).None?
  {
    var id := PersonId(digest, raw, occurrence);
    if id in people then people[id := people[id].(roles := WithRole(people[id].roles, role))]
    else
      var basis := if Optional(raw.asin, 128).Some? then ProviderId else SourceRecordOccurrence;
      people[id := Person(id, Required(raw.name, 200).value, [role], basis)]
  }

  datatype Resolved = Resolved(ids: seq<string>, people: People)

  function ResolvedFrom(digest: Digest, raws: seq<RawContributor>, role: Role, bookKey: string, people: People)
    : Result<Resolved, Code>
  {
    if raws == [] then Ok(Resolved([], people))
    else
      var n := |raws| - 1;
      var before := ResolvedFrom(digest, raws[..n], role, bookKey, people);
      if before.Err? then before
      else if PersonError(raws[n]).Some? then Err(PersonError(raws[n]).value)
      else
        var occurrence := Occurrence(bookKey, role, n);
        Ok(Resolved(before.value.ids + [PersonId(digest, raws[n], occurrence)],
                    WithPerson(digest, raws[n], role, occurrence, before.value.people)))
  }

  function ContributorsOf(digest: Digest, list: RawContributors, role: Role, bookKey: string, people: People)
    : Result<Resolved, Code>
  {
    match list
    case NoList => Ok(Resolved([], people))
    case NotAList => Err(ContributorListInvalid)
    case List(raws) =>
      if |raws| > CONTRIBUTOR_LIMIT then Err(ContributorLimitExceeded)
      else ResolvedFrom(digest, raws, role, bookKey, people)
  }

  // ---- Facets ------------------------------------------------------------------

  /** `setdefault`: the first name given to a facet stays. */
  function WithFacet(facets: Facets, facet: Facet): Facets {
    if facet.facetId in facets then facets else facets[facet.facetId := facet]
  }

  datatype Placed = Placed(seriesId: Option<string>, facets: Facets)

  function SeriesOf(digest: Digest, raw: RawSeries, bookKey: string, facets: Facets): Result<Placed, Code> {
    if raw.NoSeries? then Ok(Placed(None, facets))
    else if Required(raw.name, 200).Err? then Err(Required(raw.name, 200).error)
    else
      var name, provider := Required(raw.name, 200).value, Optional(raw.asin, 128);
      var id := Identifier(digest, "series",
        if provider.Some? then "provider-id:" + provider.value else "occurrence:" + bookKey + ":series");
      var basis := if provider.Some? then ProviderId else SourceRecordOccurrence;
      Ok(Placed(Some(id), WithFacet(facets, Facet(id, "series", name, basis))))
  }

  datatype Shelved = Shelved(ids: seq<string>, facets: Facets)

  predicate Usable(ladder: RawLadder) { ladder.Leaf? && Optional(ladder.name, 200).Some? }

  function GenreOf(digest: Digest, ladder: RawLadder, bookKey: string, index: nat): Facet
    requires Usable(ladder)
  {
    var provider := Optional(ladder.id, 128);
    var id := Identifier(digest, "genre",
      if provider.Some? then "provider-id:" + provider.value
      else "occurrence:" + bookKey + ":genre:" + Feedback.Decimal(index));
    Facet(id, "genre", Optional(ladder.name, 200).value, if provider.Some? then ProviderId else SourceRecordOccurrence)
  }

  function ShelvedFrom(digest: Digest, ladders: seq<RawLadder>, bookKey: string, facets: Facets): (r: Shelved)
    ensures NoRepeats(r.ids)
  {
    if ladders == [] then Shelved([], facets)
    else
      var n := |ladders| - 1;
      var before := ShelvedFrom(digest, ladders[..n], bookKey, facets);
      if !Usable(ladders[n]) then before
      else
        var genre := GenreOf(digest, ladders[n], bookKey, n);
        Shelved(if genre.facetId in before.ids then before.ids else before.ids + [genre.facetId],
                WithFacet(before.facets, genre))
  }

  function CategoriesOf(digest: Digest, ladders: seq<RawLadder>, bookKey: string, facets: Facets): Shelved {
    var first := if |ladders| > CATEGORY_LADDER_LIMIT then ladders[..CATEGORY_LADDER_LIMIT] else ladders;
    var r := ShelvedFrom(digest, first, bookKey, facets);
    r.(ids := SortTexts(r.ids))
  }

  // ---- One record ---------------------------------------------------------------

  function ProgressOf(p: RawProgress): Result<Option<real>, Code> {
    match p
    case NoProgress => Ok(None)
    case NotANumber => Err(ProgressValueInvalid)
    case Percent(v) => if v < 0.0 || v > 100.0 then Err(ProgressValueOutOfRange) else Ok(Some(v))
  }

  function Lower(s: string): string {
    seq(|s|, i requires 0 <= i < |s| => if 'A' <= s[i] <= 'Z' then s[i] - 'A' + 'a' else s[i])
  }

  function Status(raw: RawRecord, percent: Option<real>): string
    requires raw.RawRecord?
  {
    var word := if Optional(raw.listening, 64).Some? then Lower(Optional(raw.listening, 64).value) else "";
    if raw.finished || word in ["finished", "completed"] then "completed"
    else if word in ["in_progress", "in-progress", "started"] then "in-progress"
    else if word in ["not_started", "not-started"] then "not-started"
    else if percent.None? then "unknown"
    else if percent.value > 0.0 then "in-progress"
    else "not-started"
  }

  datatype State = State(
    people: People, facets: Facets, books: seq<Library.Book>, entries: seq<Library.Entry>, seen: set<string>)

  const EMPTY := State(map[], map[], [], [], {})

  function BookKey(asin: string): string { "us:" + asin }

  function EntryOf(raw: RawRecord, bookId: string, percent: Option<real>, observedAt: int): Library.Entry
    requires raw.RawRecord?
  {
    Library.Entry(bookId, Library.Facts(Status(raw, percent), percent, None, raw.purchased, None, None),
                  Library.Provenance(SOURCE_NAME, observedAt), None, None, None, false)
  }

  datatype Parts = Parts(authors: Resolved, narrators: Resolved, series: Placed, shelved: Shelved, percent: Option<real>)

  /** Everything a record refers to, in the order it is resolved. */
  function PartsOf(digest: Digest, raw: RawRecord, key: string, people: People, facets: Facets): Result<Parts, Code>
    requires raw.RawRecord?
  {
    var authors := ContributorsOf(digest, raw.authors, Author, key, people);
    if authors.Err? then Err(authors.error)
    else
      var narrators := ContributorsOf(digest, raw.narrators, Narrator, key, authors.value.people);
      if narrators.Err? then Err(narrators.error)
      else
        var series := SeriesOf(digest, raw.series, key, facets);
        if series.Err? then Err(series.error)
        else
          var shelved := CategoriesOf(digest, raw.ladders, key, series.value.facets);
          var percent := ProgressOf(raw.progress);
          if percent.Err? then Err(percent.error)
          else Ok(Parts(authors.value, narrators.value, series.value, shelved, percent.value))
  }

  function BookOf(bookId: string, title: string, p: Parts): Library.Book {
    Library.Book(
      bookId, SortedIds(AsSet(p.authors.ids)), SortedIds(AsSet(p.narrators.ids)), p.shelved.ids, [],
      if p.series.seriesId.Some? then p.series.seriesId.value else "", title)
  }

  function RecordStep(digest: Digest, observedAt: int, raw: RawRecord, s: State): Result<State, Code> {
    if raw.NotARecord? then Err(LibraryRecordInvalid)
    else if Required(raw.asin, 128).Err? then Err(Required(raw.asin, 128).error)
    else if Required(raw.title, 200).Err? then Err(Required(raw.title, 200).error)
    else
      var key := BookKey(Required(raw.asin, 128).value);
      var bookId := Identifier(digest, "book", key);
      if bookId in s.seen then Err(LibraryRecordDuplicate)
      else
        var parts := PartsOf(digest, raw, key, s.people, s.facets);
        if parts.Err? then Err(parts.error)
        else
          var p := parts.value;
          Ok(State(p.narrators.people, p.shelved.facets, s.books + [BookOf(bookId, Required(raw.title, 200).value, p)],
                   s.entries + [EntryOf(raw, bookId, p.percent, observedAt)], s.seen + {bookId}))
  }

  function Gathered(digest: Digest, observedAt: int, items: seq<RawRecord>): Result<State, Failure> {
    if items == [] then Ok(EMPTY)
    else
      var n := |items| - 1;
      var before := Gathered(digest, observedAt, items[..n]);
      if before.Err? then before
      else
        var next := RecordStep(digest, observedAt, items[n], before.value);
        if next.Err? then Err(Failure(next.error, Some(n))) else Ok(next.value)
  }

  // ---- The snapshot ----------------------------------------------------------------

  function PublishedPeople(people: People): map<string, Library.Person> {
    map id | id in people :: Library.Person(id, people[id].name)
  }

  function PublishedFacets(facets: Facets): map<string, Library.Facet> {
    map id | id in facets :: Library.Facet(id, facets[id].name)
  }

  /** Sorting the records by id, their ids being distinct. */
  function SnapshotOf(s: State, observedAt: int): Library.Snapshot {
    Library.Snapshot(
      Some(observedAt), "",
      Library.Catalog(SortedValues(PublishedPeople(s.people)), SortedValues(PublishedFacets(s.facets)),
                      SortedValues(Library.IndexBy(s.books, Library.BookId))),
      SortedValues(Library.IndexBy(s.entries, Library.EntryId)))
  }

  /** The closing checks are the reconciler's own integrity check. */
  function ClosingCode(e: Reconcile.ReconcileError): Code {
    match e
    case EntryBookMissing => EntryBookMissing
    case BookPersonMissing => BookPersonMissing
    case _ => BookFacetMissing
  }

  ghost function Normalized(digest: Digest, items: seq<RawRecord>, marketplace: string, observedAt: Option<int>)
    : Result<Library.Snapshot, Failure>
  {
    if marketplace != "us" then Err(Failure(MarketplaceNotAllowed, None))
    else if observedAt.None? then Err(Failure(ObservedAtInvalid, None))
    else
      var gathered := Gathered(digest, observedAt.value, items);
      if gathered.Err? then Err(gathered.error)
      else
        var snapshot := SnapshotOf(gathered.value, observedAt.value);
        var missing := Reconcile.IntegrityError(snapshot.catalog, snapshot.entries);
        if missing.Some? then Err(Failure(ClosingCode(missing.value), None)) else Ok(snapshot)
  }

  // ---- The loops ---------------------------------------------------------------------

  /** The dictionaries and lists one call fills. */
  class Normalizer {
    const digest: Digest
    var people: People
    var facets: Facets
    var books: seq<Library.Book>
    var entries: seq<Library.Entry>
    var seen: set<string>

    constructor (digest: Digest)
      ensures Value() == EMPTY && this.digest == digest
    {
      this.digest := digest;
      people, facets, books, entries, seen := map[], map[], [], [], {};
    }

    function Value(): State
      reads this
    {
      State(people, facets, books, entries, seen)
    }

    method ResolvePerson(raw: RawContributor, role: Role, occurrence: string) returns (r: Result<string, Code>)
      modifies this`people
      ensures PersonError(raw).Some? ==> r == Err(PersonError(raw).value)
      ensures PersonError(raw).None? ==>
        && r == Ok(PersonId(digest, raw, occurrence))
        && people == WithPerson(digest, raw, role, occurrence, old(people))
    {
      if raw.NotAContributor? { return Err(ContributorRecordInvalid); }
      var name := Required(raw.name, 200);
      if name.Err? { return Err(name.error); }
      var provider := Optional(raw.asin, 128);
      var id, basis;
      if provider.Some? {
        id, basis := Identifier(digest, "person", "provider-id:" + provider.value), ProviderId;
      } else {
        id, basis := Identifier(digest, "person", "occurrence:" + occurrence), SourceRecordOccurrence;
      }
      if id in people {
        if role !in people[id].roles {
          people := people[id := people[id].(roles := WithRole(people[id].roles, role))];
        }
      } else {
        people := people[id := Person(id, name.value, [role], basis)];
      }
      r := Ok(id);
    }

    method Contributors(list: RawContributors, role: Role, bookKey: string) returns (r: Result<seq<string>, Code>)
      modifies this`people
      ensures var spec := ContributorsOf(digest, list, role, bookKey, old(people));
        && r == (if spec.Err? then Err(spec.error) else Ok(spec.value.ids))
        && (r.Ok? ==> people == spec.value.people)
    {
      if list.NoList? { return Ok([]); }
      if list.NotAList? { return Err(ContributorListInvalid); }
      var raws, resolved: seq<string> := list.items, [];
      if |raws| > CONTRIBUTOR_LIMIT { return Err(ContributorLimitExceeded); }
      for i := 0 to |raws|
        invariant ResolvedFrom(digest, raws[..i], role, bookKey, old(people)) == Ok(Resolved(resolved, people))
      {
        assert raws[..i + 1][..i] == raws[..i];
        var person := ResolvePerson(raws[i], role, Occurrence(bookKey, role, i));
        if person.Err? {
          ResolvingStops(digest, raws, i + 1, role, bookKey, old(people));
          return Err(person.error);
        }
        resolved := resolved + [person.value];
      }
      assert raws[..|raws|] == raws;
      r := Ok(resolved);
    }

    method PlaceSeries(raw: RawSeries, bookKey: string) returns (r: Result<Option<string>, Code>)
      modifies this`facets
      ensures var spec := SeriesOf(digest, raw, bookKey, old(facets));
        && r == (if spec.Err? then Err(spec.error) else Ok(spec.value.seriesId))
        && (r.Ok? ==> facets == spec.value.facets)
    {
      if raw.NoSeries? { return Ok(None); }
      var name := Required(raw.name, 200);
      if name.Err? { return Err(name.error); }
      var provider := Optional(raw.asin, 128);
      var id, basis;
      if provider.Some? {
        id, basis := Identifier(digest, "series", "provider-id:" + provider.value), ProviderId;
      } else {
        id, basis := Identifier(digest, "series", "occurrence:" + bookKey + ":series"), SourceRecordOccurrence;
      }
      if id !in facets { facets := facets[id := Facet(id, "series", name.value, basis)]; }
      r := Ok(Some(id));
    }

    method Categories(ladders: seq<RawLadder>, bookKey: string) returns (ids: seq<string>)
      modifies this`facets
      ensures Shelved(ids, facets) == CategoriesOf(digest, ladders, bookKey, old(facets))
    {
      var first := if |ladders| > CATEGORY_LADDER_LIMIT then ladders[..CATEGORY_LADDER_LIMIT] else ladders;
      ids := [];
      for i := 0 to |first|
        invariant Shelved(ids, facets) == ShelvedFrom(digest, first[..i], bookKey, old(facets))
      {
        assert first[..i + 1][..i] == first[..i];
        if Usable(first[i]) {
          var genre := GenreOf(digest, first[i], bookKey, i);
          if genre.facetId !in facets { facets := facets[genre.facetId := genre]; }
          if genre.facetId !in ids { ids := ids + [genre.facetId]; }
        }
      }
      assert first[..|first|] == first;
      ids := SortTexts(ids);
    }

    method AddRecord(raw: RawRecord, observedAt: int) returns (r: Option<Code>)
      modifies this
      ensures var spec := RecordStep(digest, observedAt, raw, old(Value()));
        && r == (if spec.Err? then Some(spec.error) else None)
        && (r.None? ==> Value() == spec.value)
    {
      if raw.NotARecord? { return Some(LibraryRecordInvalid); }
      var asin, title := Required(raw.asin, 128), Required(raw.title, 200);
      if asin.Err? { return Some(asin.error); }
      if title.Err? { return Some(title.error); }
      var key := BookKey(asin.value);
      var bookId := Identifier(digest, "book", key);
      if bookId in seen { return Some(LibraryRecordDuplicate); }
      seen := seen + {bookId};
      var authors := Contributors(raw.authors, Author, key);
      if authors.Err? { return Some(authors.error); }
      var narrators := Contributors(raw.narrators, Narrator, key);
      if narrators.Err? { return Some(narrators.error); }
      var series := PlaceSeries(raw.series, key);
      if series.Err? { return Some(series.error); }
      var genreIds := Categories(raw.ladders, key);
      var percent := ProgressOf(raw.progress);
      if percent.Err? { return Some(percent.error); }
      books := books + [Library.Book(
        bookId, SortedIds(AsSet(authors.value)), SortedIds(AsSet(narrators.value)), genreIds, [],
        if series.value.Some? then series.value.value else "", title.value)];
      entries := entries + [EntryOf(raw, bookId, percent.value, observedAt)];
      r := None;
    }
  }

  method NormalizeLibrary(digest: Digest, items: seq<RawRecord>, marketplace: string, observedAt: Option<int>)
    returns (r: Result<Library.Snapshot, Failure>)
    ensures r == Normalized(digest, items, marketplace, observedAt)
  {
    if marketplace != "us" { return Err(Failure(MarketplaceNotAllowed, None)); }
    if observedAt.None? { return Err(Failure(ObservedAtInvalid, None)); }
    var at := observedAt.value;
    var n := new Normalizer(digest);
    for i := 0 to |items|
      invariant fresh(n)
      invariant Gathered(digest, at, items[..i]) == Ok(n.Value())
    {
      assert items[..i + 1][..i] == items[..i];
      var refused := n.AddRecord(items[i], at);
      if refused.Some? {
        GatheringStops(digest, at, items, i + 1);
        return Err(Failure(refused.value, Some(i)));
      }
    }
    assert items[..|items|] == items;
    var snapshot := SnapshotOf(n.Value(), at);
    var missing := Reconcile.AssertReferentialIntegrity(snapshot.catalog, snapshot.entries);
    if missing.Some? { return Err(Failure(ClosingCode(missing.value), None)); }
    r := Ok(snapshot);
  }

  lemma {:induction false} ResolvingStops(digest: Digest, raws: seq<RawContributor>, i: nat, role: Role, key: string, people: People)
    requires i <= |raws| && ResolvedFrom(digest, raws[..i], role, key, people).Err?
    ensures ResolvedFrom(digest, raws, role, key, people) == ResolvedFrom(digest, raws[..i], role, key, people)
    decreases |raws| - i
  {
    if i == |raws| {
      assert raws[..i] == raws;
    } else {
      assert raws[..i + 1][..i] == raws[..i];
      ResolvingStops(digest, raws, i + 1, role, key, people);
    }
  }

  lemma {:induction false} GatheringStops(digest: Digest, at: int, items: seq<RawRecord>, i: nat)
    requires i <= |items| && Gathered(digest, at, items[..i]).Err?
    ensures Gathered(digest, at, items) == Gathered(digest, at, items[..i])
    decreases |items| - i
  {
    if i == |items| {
      assert items[..i] == items;
    } else {
      assert items[..i + 1][..i] == items[..i];
      GatheringStops(digest, at, items, i + 1);
    }
  }
}
