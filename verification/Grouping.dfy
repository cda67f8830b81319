/** The library query: filter, sort, group, paginate (`groupRows` and `queryLibrary` of
    ui/js/private-store.js). The label key, a hash of a normalized name, is an arbitrary
    function from names to texts. */
module Grouping {
  import opened Texts
  import opened Ordering
  import opened Paging

  type LabelKey = string -> string

  datatype GroupField = OfStatus | OfSeries | OfAuthors | OfNarrators

  const SERIES_UNKNOWN_LABEL := "Series unknown"

  /** One place a row is filed under. */
  datatype Placement = Placement(key: string, heading: string, personId: Option<string>)

  function NameAt(names: seq<string>, i: nat, missing: string): string { if i < |names| then names[i] else missing }

  function PeoplePlacements(kind: string, ids: seq<string>, names: seq<string>, labelKey: LabelKey): seq<Placement> {
    if ids == [] then [Placement(kind + ":unknown", "Unknown " + kind, None)]
    else
      seq(|ids|, i requires 0 <= i < |ids| =>
        var name := NameAt(names, i, "Unknown " + kind);
        Placement(kind + "-label:" + labelKey(name), name, Some(ids[i])))
  }

  function Placements(row: Row, field: GroupField, labelKey: LabelKey): seq<Placement> {
    match field
    case OfStatus => [Placement("status:" + row.status, row.statusHeading, None)]
    case OfSeries =>
      [Placement("series:" + (if row.seriesId.Some? then row.seriesId.value else "unknown"),
                 if row.seriesHeading.Some? then row.seriesHeading.value else SERIES_UNKNOWN_LABEL, None)]
    case OfAuthors => PeoplePlacements("author", row.authorIds, row.authors, labelKey)
    case OfNarrators => PeoplePlacements("narrator", row.narratorIds, row.narrators, labelKey)
  }

  predicate Lists(items: seq<Row>, bookId: string) { exists i :: 0 <= i < |items| && items[i].bookId == bookId }

  type Groups = map<string, Group<Row>>

  function Added(groups: Groups, p: Placement, row: Row): Groups {
    var g := if p.key in groups then groups[p.key] else Group(p.key, p.heading, [], []);
    var ids := if p.personId.Some? && p.personId.value != "" && p.personId.value !in g.personIds
               then g.personIds + [p.personId.value] else g.personIds;
    var items := if Lists(g.items, row.bookId) then g.items else g.items + [row];
    groups[p.key := g.(personIds := ids, items := items)]
  }

  function AddedAll(groups: Groups, placements: seq<Placement>, row: Row): Groups {
    if placements == [] then groups
    else Added(AddedAll(groups, placements[..|placements| - 1], row), placements[|placements| - 1], row)
  }

  function GroupMap(rows: seq<Row>, field: GroupField, labelKey: LabelKey): Groups {
    if rows == [] then map[]
    else
      var last := rows[|rows| - 1];
      AddedAll(GroupMap(rows[..|rows| - 1], field, labelKey), Placements(last, field, labelKey), last)
  }

  function GroupOrder(): (Group<Row>, Group<Row>) -> int {
    (a: Group<Row>, b: Group<Row>) => if CompareText(a.heading, b.heading) != 0 then CompareText(a.heading, b.heading) else CompareText(a.key, b.key)
  }

  function Finished(groups: seq<Group<Row>>): seq<Group<Row>> {
    seq(|groups|, i requires 0 <= i < |groups| => groups[i].(personIds := SortedIds(AsSet(groups[i].personIds))))
  }

  function GroupsOf(rows: seq<Row>, field: GroupField, labelKey: LabelKey): seq<Group<Row>> {
    Finished(SortBy(SortedValues(GroupMap(rows, field, labelKey)), GroupOrder()))
  }

  method AddPlace(groups: Groups, p: Placement, row: Row) returns (r: Groups)
    ensures r == Added(groups, p, row)
  {
    var group := Group(p.key, p.heading, [], []);
    if p.key in groups { group := groups[p.key]; }
    if p.personId.Some? && p.personId.value != "" && p.personId.value !in group.personIds {
      group := group.(personIds := group.personIds + [p.personId.value]);
    }
    if !Lists(group.items, row.bookId) { group := group.(items := group.items + [row]); }
    r := groups[p.key := group];
  }

  method AddRow(groups: Groups, placements: seq<Placement>, row: Row) returns (r: Groups)
    ensures r == AddedAll(groups, placements, row)
  {
    r := groups;
    for i := 0 to |placements|
      invariant r == AddedAll(groups, placements[..i], row)
    {
      assert placements[..i + 1][..i] == placements[..i];
      r := AddPlace(r, placements[i], row);
    }
    assert placements[..|placements|] == placements;
  }

  method GroupRows(rows: seq<Row>, field: GroupField, labelKey: LabelKey) returns (r: seq<Group<Row>>)
    ensures r == GroupsOf(rows, field, labelKey)
  {
    var groups: Groups := map[];
    for i := 0 to |rows|
      invariant groups == GroupMap(rows[..i], field, labelKey)
    {
      assert rows[..i + 1][..i] == rows[..i];
      groups := AddRow(groups, Placements(rows[i], field, labelKey), rows[i]);
    }
    assert rows[..|rows|] == rows;
    r := Finished(SortBy(SortedValues(groups), GroupOrder()));
  }

  // ---- What a group contains ------------------------------------------------------

  predicate FiledUnder(row: Row, field: GroupField, labelKey: LabelKey, key: string) {
    HasKey(Placements(row, field, labelKey), key)
  }

  predicate HasKey(placements: seq<Placement>, key: string) { exists i :: 0 <= i < |placements| && placements[i].key == key }

  /** The rows filed under a key, in order. */
  function Having(rows: seq<Row>, field: GroupField, labelKey: LabelKey, key: string): seq<Row> {
    if rows == [] then []
    else
      var last := rows[|rows| - 1];
      Having(rows[..|rows| - 1], field, labelKey, key) + if FiledUnder(last, field, labelKey, key) then [last] else []
  }

  ghost predicate DistinctRows(rows: seq<Row>) {
    forall i, j :: 0 <= i < j < |rows| ==> rows[i].bookId != rows[j].bookId
  }

  function ItemsAt(groups: Groups, key: string): seq<Row> { if key in groups then groups[key].items else [] }

  lemma HasKeyFromFront(placements: seq<Placement>, key: string)
    requires placements != []
    ensures var n := |placements| - 1;
      HasKey(placements, key) <==> HasKey(placements[..n], key) || placements[n].key == key
  {
    var front := placements[..|placements| - 1];
    assert forall i :: 0 <= i < |front| ==> front[i] == placements[i];
    if HasKey(front, key) {
      var i :| 0 <= i < |front| && front[i].key == key;
      assert placements[i].key == key;
    }
  }

  lemma AddedItems(groups: Groups, p: Placement, row: Row, key: string)
    ensures ItemsAt(Added(groups, p, row), key)
      == ItemsAt(groups, key) + if p.key == key && !Lists(ItemsAt(groups, key), row.bookId) then [row] else []
    ensures key in Added(groups, p, row) <==> key in groups || p.key == key
  {
  }

  lemma {:induction false} AddedAllItems(groups: Groups, placements: seq<Placement>, row: Row, key: string)
    requires !Lists(ItemsAt(groups, key), row.bookId)
    ensures ItemsAt(AddedAll(groups, placements, row), key)
      == ItemsAt(groups, key) + if HasKey(placements, key) then [row] else []
    ensures key in AddedAll(groups, placements, row) <==> key in groups || HasKey(placements, key)
  {
    if placements == [] {
    } else {
      var front, last := placements[..|placements| - 1], placements[|placements| - 1];
      AddedAllItems(groups, front, row, key);
      HasKeyFromFront(placements, key);
      var before := AddedAll(groups, front, row);
      AddedItems(before, last, row, key);
      var items := ItemsAt(before, key);
      if HasKey(front, key) { assert items[|items| - 1].bookId == row.bookId; }
    }
  }

  lemma {:induction false} HavingListsOnlyRows(rows: seq<Row>, field: GroupField, labelKey: LabelKey, key: string)
    ensures forall k :: 0 <= k < |Having(rows, field, labelKey, key)| ==>
      Having(rows, field, labelKey, key)[k] in rows && FiledUnder(Having(rows, field, labelKey, key)[k], field, labelKey, key)
    ensures forall i :: 0 <= i < |rows| && FiledUnder(rows[i], field, labelKey, key) ==> rows[i] in Having(rows, field, labelKey, key)
  {
    if rows == [] {
    } else {
      var front := rows[..|rows| - 1];
      HavingListsOnlyRows(front, field, labelKey, key);
      assert forall i :: 0 <= i < |front| ==> front[i] == rows[i];
    }
  }

  /** Some row is filed under the key. */
  predicate AnyFiled(rows: seq<Row>, field: GroupField, labelKey: LabelKey, key: string) {
    rows != [] &&
    (AnyFiled(rows[..|rows| - 1], field, labelKey, key) || FiledUnder(rows[|rows| - 1], field, labelKey, key))
  }

  lemma {:induction false} FiledIsAny(rows: seq<Row>, i: nat, field: GroupField, labelKey: LabelKey, key: string)
    requires i < |rows| && FiledUnder(rows[i], field, labelKey, key)
    ensures AnyFiled(rows, field, labelKey, key)
  {
    var n := |rows| - 1;
    if i == n {
    } else {
      assert rows[..n][i] == rows[i];
      FiledIsAny(rows[..n], i, field, labelKey, key);
    }
  }

  lemma HavingLacks(front: seq<Row>, last: Row, field: GroupField, labelKey: LabelKey, key: string)
    requires forall i :: 0 <= i < |front| ==> front[i].bookId != last.bookId
    ensures !Lists(Having(front, field, labelKey, key), last.bookId)
  {
    HavingListsOnlyRows(front, field, labelKey, key);
  }

  /** A group holds exactly the rows filed under its key, each once, in the given order. */
  lemma {:induction false} GroupHoldsExactlyItsRows(rows: seq<Row>, field: GroupField, labelKey: LabelKey, key: string)
    requires DistinctRows(rows)
    ensures ItemsAt(GroupMap(rows, field, labelKey), key) == Having(rows, field, labelKey, key)
    ensures key in GroupMap(rows, field, labelKey) <==> AnyFiled(rows, field, labelKey, key)
  {
    if rows == [] {
    } else {
      var front, last := rows[..|rows| - 1], rows[|rows| - 1];
      GroupHoldsExactlyItsRows(front, field, labelKey, key);
      HavingLacks(front, last, field, labelKey, key);
      AddedAllItems(GroupMap(front, field, labelKey), Placements(last, field, labelKey), last, key);
    }
  }

  lemma {:induction false} GroupMapIsKeyed(rows: seq<Row>, field: GroupField, labelKey: LabelKey)
    ensures forall k :: k in GroupMap(rows, field, labelKey) ==> GroupMap(rows, field, labelKey)[k].key == k
  {
    if rows == [] {
    } else {
      var last := rows[|rows| - 1];
      GroupMapIsKeyed(rows[..|rows| - 1], field, labelKey);
      AddedAllIsKeyed(GroupMap(rows[..|rows| - 1], field, labelKey), Placements(last, field, labelKey), last);
    }
  }

  lemma {:induction false} AddedAllIsKeyed(groups: Groups, placements: seq<Placement>, row: Row)
    requires forall k :: k in groups ==> groups[k].key == k
    ensures forall k :: k in AddedAll(groups, placements, row) ==> AddedAll(groups, placements, row)[k].key == k
  {
    if placements == [] {
    } else {
      AddedAllIsKeyed(groups, placements[..|placements| - 1], row);
    }
  }

  ghost predicate ShowsMap(r: seq<Group<Row>>, m: Groups) {
    && (forall g :: 0 <= g < |r| ==> r[g].key in m && r[g].items == m[r[g].key].items)
    && (forall k :: k in m ==> exists g :: 0 <= g < |r| && r[g].key == k)
  }

  lemma ValuesShowMap(m: Groups)
    requires forall k :: k in m ==> m[k].key == k
    ensures ShowsMap(SortedValues(m), m)
  {
    var values := SortedValues(m);
    SortedValuesAt(m);
    SortedIdsElements(m.Keys);
    forall k | k in m ensures exists g :: 0 <= g < |values| && values[g].key == k {
      var g :| 0 <= g < |values| && SortedIds(m.Keys)[g] == k;
      assert values[g].key == k;
    }
  }

  lemma RearrangedShowsMap(a: seq<Group<Row>>, b: seq<Group<Row>>, m: Groups)
    requires ShowsMap(a, m) && multiset(a) == multiset(b)
    ensures ShowsMap(b, m)
  {
    forall g | 0 <= g < |b| ensures b[g].key in m && b[g].items == m[b[g].key].items { MultisetMembers(a, b, b[g]); }
    forall k | k in m ensures exists g :: 0 <= g < |b| && b[g].key == k {
      var i :| 0 <= i < |a| && a[i].key == k;
      MultisetMembers(a, b, a[i]);
      var g :| 0 <= g < |b| && b[g] == a[i];
    }
  }

  lemma FinishedShowsMap(a: seq<Group<Row>>, m: Groups)
    requires ShowsMap(a, m)
    ensures ShowsMap(Finished(a), m)
  {
    var r := Finished(a);
    forall k | k in m ensures exists g :: 0 <= g < |r| && r[g].key == k {
      var g :| 0 <= g < |a| && a[g].key == k;
      assert r[g].key == k;
    }
  }

  /** Sorting and finishing keep every group, under its key, with its rows. */
  lemma GroupsAreTheMap(rows: seq<Row>, field: GroupField, labelKey: LabelKey)
    ensures ShowsMap(GroupsOf(rows, field, labelKey), GroupMap(rows, field, labelKey))
  {
    var m := GroupMap(rows, field, labelKey);
    GroupMapIsKeyed(rows, field, labelKey);
    ValuesShowMap(m);
    SortKeepsElements(SortedValues(m), GroupOrder());
    RearrangedShowsMap(SortedValues(m), SortBy(SortedValues(m), GroupOrder()), m);
    FinishedShowsMap(SortBy(SortedValues(m), GroupOrder()), m);
  }

  // ---- No key has two groups -------------------------------------------------------

  ghost predicate DistinctKeys(groups: seq<Group<Row>>) {
    forall g, h :: 0 <= g < h < |groups| ==> groups[g].key != groups[h].key
  }

  lemma ValuesHaveDistinctKeys(m: Groups)
    requires forall k :: k in m ==> m[k].key == k
    ensures DistinctKeys(SortedValues(m))
  {
    var values, ids := SortedValues(m), SortedIds(m.Keys);
    SortedValuesAt(m);
    SortedIdsAscending(m.Keys);
    forall g, h | 0 <= g < h < |values| ensures values[g].key != values[h].key {
      assert values[g].key == ids[g] && values[h].key == ids[h];
      LessTotal(ids[g], ids[h]);
    }
  }

  lemma {:induction false} DistinctCounts(a: seq<Group<Row>>, x: Group<Row>)
    requires DistinctKeys(a)
    ensures multiset(a)[x] <= 1
  {
    if a == [] {
    } else {
      var front, last := a[..|a| - 1], a[|a| - 1];
      assert a == front + [last];
      DistinctCounts(front, x);
      forall g | 0 <= g < |front| ensures front[g] != last { assert a[g].key != a[|a| - 1].key; }
    }
  }

  lemma TwiceCounts(b: seq<Group<Row>>, g: nat, h: nat)
    requires g < h < |b| && b[g] == b[h]
    ensures multiset(b)[b[g]] >= 2
  {
    assert b == b[..h] + b[h..];
    assert b[..h][g] == b[g] && b[h..][0] == b[h];
    assert b[g] in multiset(b[..h]) && b[h] in multiset(b[h..]);
  }

  /** Sorting cannot give a key two groups. */
  lemma RearrangedHasDistinctKeys(a: seq<Group<Row>>, b: seq<Group<Row>>)
    requires DistinctKeys(a) && multiset(a) == multiset(b)
    ensures DistinctKeys(b)
  {
    forall g, h | 0 <= g < h < |b| ensures b[g].key != b[h].key {
      MultisetMembers(a, b, b[g]);
      MultisetMembers(a, b, b[h]);
      var i :| 0 <= i < |a| && a[i] == b[g];
      var j :| 0 <= j < |a| && a[j] == b[h];
      if i == j {
        DistinctCounts(a, b[g]);
        TwiceCounts(b, g, h);
      }
    }
  }

  lemma KeysAreDistinct(rows: seq<Row>, field: GroupField, labelKey: LabelKey)
    ensures DistinctKeys(GroupsOf(rows, field, labelKey))
  {
    var values := SortedValues(GroupMap(rows, field, labelKey));
    GroupMapIsKeyed(rows, field, labelKey);
    ValuesHaveDistinctKeys(GroupMap(rows, field, labelKey));
    SortKeepsElements(values, GroupOrder());
    RearrangedHasDistinctKeys(values, SortBy(values, GroupOrder()));
  }

  /** The groups a reader sees: exactly one for each key some row is filed under, holding those
      rows. */
  lemma GroupsShowExactlyTheirRows(rows: seq<Row>, field: GroupField, labelKey: LabelKey, key: string)
    requires DistinctRows(rows)
    ensures var r := GroupsOf(rows, field, labelKey);
      && DistinctKeys(r)
      && (forall g :: 0 <= g < |r| && r[g].key == key ==> r[g].items == Having(rows, field, labelKey, key))
      && ((exists g :: 0 <= g < |r| && r[g].key == key) <==> AnyFiled(rows, field, labelKey, key))
  {
    KeysAreDistinct(rows, field, labelKey);
    GroupHoldsExactlyItsRows(rows, field, labelKey, key);
    GroupsAreTheMap(rows, field, labelKey);
  }

  // ---- The query --------------------------------------------------------------------

  function Filtered(rows: seq<Row>, keep: Row -> bool): seq<Row> {
    if rows == [] then []
    else Filtered(rows[..|rows| - 1], keep) + if keep(rows[|rows| - 1]) then [rows[|rows| - 1]] else []
  }

  lemma {:induction false} FilteredCounts(rows: seq<Row>, keep: Row -> bool, x: Row)
    ensures multiset(Filtered(rows, keep))[x] == if keep(x) then multiset(rows)[x] else 0
  {
    if rows == [] {
    } else {
      assert rows == rows[..|rows| - 1] + [rows[|rows| - 1]];
      FilteredCounts(rows[..|rows| - 1], keep, x);
    }
  }

  datatype Query = Query(keep: Row -> bool, session: Session, groupBy: Option<GroupField>, page: Request, choices: Choices)

  function Matched(rows: seq<Row>, q: Query, show: Show): seq<Row> {
    SortBy(Filtered(rows, q.keep), RowOrder(q.session, show))
  }

  datatype Answer =
    | Ungrouped(window: Window<Row>, matched: nat, total: nat)
    | Grouped(page: GroupedPage<Row>, groupTotal: nat, matched: nat, total: nat)

  function AnswerTo(rows: seq<Row>, q: Query, show: Show, labelKey: LabelKey): Answer {
    var sorted := Matched(rows, q, show);
    if q.groupBy.None? then Ungrouped(PaginateRows(sorted, q.page), |sorted|, |rows|)
    else
      var groups := GroupsOf(sorted, q.groupBy.value, labelKey);
      Grouped(GroupedPageOf(groups, q.choices), |groups|, |sorted|, |rows|)
  }

  function RenderedCount(a: Answer): nat {
    match a
    case Ungrouped(w, _, _) => |w.items|
    case Grouped(page, _, _, _) => page.renderedRowCount
  }

  method QueryLibrary(rows: seq<Row>, q: Query, show: Show, labelKey: LabelKey) returns (a: Answer)
    ensures a == AnswerTo(rows, q, show, labelKey)
    ensures RenderedCount(a) <= LIBRARY_PAGE_SIZE
  {
    var filtered := Filtered(rows, q.keep);
    var sorted := SortBy(filtered, RowOrder(q.session, show));
    if q.groupBy.None? {
      WindowShowsWhatItSays(sorted, q.page, LIBRARY_PAGE_SIZE);
      return Ungrouped(PaginateRows(sorted, q.page), |sorted|, |rows|);
    }
    var groups := GroupRows(sorted, q.groupBy.value, labelKey);
    var page := PaginateGroups(groups, q.choices);
    a := Grouped(page, |groups|, |sorted|, |rows|);
  }

  /** Filtering and sorting lose nothing: the matches are the kept rows, whatever the input order. */
  lemma MatchesIgnoreInputOrder(a: seq<Row>, b: seq<Row>, q: Query, show: Show)
    requires multiset(a) == multiset(b) && Sortable(a, q.session.field, Some(BySeriesPosition))
    ensures Matched(a, q, show) == Matched(b, q, show)
    ensures forall x :: multiset(Matched(a, q, show))[x] == if q.keep(x) then multiset(a)[x] else 0
  {
    var fa, fb, cmp := Filtered(a, q.keep), Filtered(b, q.keep), RowOrder(q.session, show);
    forall x ensures multiset(fa)[x] == if q.keep(x) then multiset(a)[x] else 0 { FilteredCounts(a, q.keep, x); }
    forall x ensures multiset(fb)[x] == multiset(fa)[x] { FilteredCounts(b, q.keep, x); }
    assert multiset(fa) == multiset(fb);
    forall x | x in fa ensures x in a { assert x in multiset(fa); }
    SortableOfFewer(a, fa, q.session.field, Some(BySeriesPosition));
    RowOrderIsTotal(fa, q.session, show);
    SortIgnoresInputOrder(fa, fb, cmp);
    SortKeepsElements(fa, cmp);
  }

  /** Every match that is filed under a key can be brought on screen: its group holds it at
      some position, and choosing the pages of both shows it. */
  lemma EveryMatchIsReachable(rows: seq<Row>, field: GroupField, labelKey: LabelKey, row: Row, key: string, c: Choices)
    returns (chosen: Choices)
    requires DistinctRows(rows) && row in rows && FiledUnder(row, field, labelKey, key) && key !in c.collapsed
    ensures chosen.collapsed == c.collapsed
    ensures Shows(GroupedPageOf(GroupsOf(rows, field, labelKey), chosen), key, row)
  {
    var groups := GroupsOf(rows, field, labelKey);
    var r :| 0 <= r < |rows| && rows[r] == row;
    FiledIsAny(rows, r, field, labelKey, key);
    GroupsShowExactlyTheirRows(rows, field, labelKey, key);
    HavingListsOnlyRows(rows, field, labelKey, key);
    var g :| 0 <= g < |groups| && groups[g].key == key;
    var i :| 0 <= i < |groups[g].items| && groups[g].items[i] == row;
    chosen := ChooseFor(groups, g, i, c);
  }

  lemma ChooseFor(groups: seq<Group<Row>>, g: nat, i: nat, c: Choices) returns (chosen: Choices)
    requires g < |groups| && i < |groups[g].items| && groups[g].key !in c.collapsed
    ensures chosen.collapsed == c.collapsed
    ensures Shows(GroupedPageOf(groups, chosen), groups[g].key, groups[g].items[i])
  {
    EveryGroupedRowIsReachable(groups, g, i, c);
    chosen := c.(groupPage := Some((g / LIBRARY_GROUP_PAGE_SIZE + 1) as real),
                 rowPages := c.rowPages[groups[g].key := Some((i / LIBRARY_GROUP_ROW_PAGE_SIZE + 1) as real)]);
    ShownAt(GroupedPageOf(groups, chosen), groups[g].key, groups[g].items[i],
            g % LIBRARY_GROUP_PAGE_SIZE, i % LIBRARY_GROUP_ROW_PAGE_SIZE);
  }

  lemma ShownAt(page: GroupedPage<Row>, key: string, row: Row, at: nat, i: nat)
    requires at < |page.groups| && page.groups[at].group.key == key
    requires i < |page.groups[at].visible| && page.groups[at].visible[i] == row
    ensures Shows(page, key, row)
  {
  }

  /** The page renders the row inside the group of that key. */
  ghost predicate Shows(page: GroupedPage<Row>, key: string, row: Row) {
    exists at :: 0 <= at < |page.groups| && page.groups[at].group.key == key && row in page.groups[at].visible
  }

  // ---- Status and series partition the rows ------------------------------------------

  /** A row is in a group exactly when it is filed under its key. */
  lemma InGroupExactly(rows: seq<Row>, field: GroupField, labelKey: LabelKey, row: Row, g: nat)
    requires DistinctRows(rows) && row in rows && g < |GroupsOf(rows, field, labelKey)|
    ensures row in GroupsOf(rows, field, labelKey)[g].items
      <==> FiledUnder(row, field, labelKey, GroupsOf(rows, field, labelKey)[g].key)
  {
    var key := GroupsOf(rows, field, labelKey)[g].key;
    GroupsShowExactlyTheirRows(rows, field, labelKey, key);
    HavingListsOnlyRows(rows, field, labelKey, key);
  }

  /** The group holds the row, and no other group does. */
  ghost predicate OnlyIn(groups: seq<Group<Row>>, g: nat, row: Row) {
    && g < |groups| && row in groups[g].items
    && forall h :: 0 <= h < |groups| && row in groups[h].items ==> h == g
  }

  /** The one key a row has by status or by series. */
  function HomeKey(row: Row, field: GroupField, labelKey: LabelKey): string
    requires field.OfStatus? || field.OfSeries?
  {
    Placements(row, field, labelKey)[0].key
  }

  ghost predicate HasGroup(groups: seq<Group<Row>>, key: string) { exists g :: 0 <= g < |groups| && groups[g].key == key }

  lemma FiledAtHome(row: Row, field: GroupField, labelKey: LabelKey, key: string)
    requires field.OfStatus? || field.OfSeries?
    ensures FiledUnder(row, field, labelKey, key) <==> key == HomeKey(row, field, labelKey)
  {
    assert |Placements(row, field, labelKey)| == 1;
  }

  lemma HomeHasGroup(rows: seq<Row>, field: GroupField, labelKey: LabelKey, row: Row)
    requires DistinctRows(rows) && row in rows && (field.OfStatus? || field.OfSeries?)
    ensures HasGroup(GroupsOf(rows, field, labelKey), HomeKey(row, field, labelKey))
  {
    var home := HomeKey(row, field, labelKey);
    FiledAtHome(row, field, labelKey, home);
    var r :| 0 <= r < |rows| && rows[r] == row;
    FiledIsAny(rows, r, field, labelKey, home);
    GroupsShowExactlyTheirRows(rows, field, labelKey, home);
  }

  lemma OnlyHomeHoldsIt(groups: seq<Group<Row>>, home: string, row: Row)
    requires DistinctKeys(groups) && HasGroup(groups, home)
    requires forall g :: 0 <= g < |groups| ==> (row in groups[g].items <==> groups[g].key == home)
    ensures exists g :: OnlyIn(groups, g, row)
  {
    var g :| 0 <= g < |groups| && groups[g].key == home;
    assert OnlyIn(groups, g, row);
  }

  /** By status or by series every row is in exactly one group. */
  lemma StatusAndSeriesPartition(rows: seq<Row>, field: GroupField, labelKey: LabelKey, row: Row)
    requires DistinctRows(rows) && row in rows && (field.OfStatus? || field.OfSeries?)
    ensures exists g :: OnlyIn(GroupsOf(rows, field, labelKey), g, row)
    ensures forall g :: 0 <= g < |GroupsOf(rows, field, labelKey)| ==>
      (row in GroupsOf(rows, field, labelKey)[g].items <==> GroupsOf(rows, field, labelKey)[g].key == HomeKey(row, field, labelKey))
  {
    var groups := GroupsOf(rows, field, labelKey);
    forall g | 0 <= g < |groups| ensures row in groups[g].items <==> groups[g].key == HomeKey(row, field, labelKey) {
      InGroupExactly(rows, field, labelKey, row, g);
      FiledAtHome(row, field, labelKey, groups[g].key);
    }
    KeysAreDistinct(rows, field, labelKey);
    HomeHasGroup(rows, field, labelKey, row);
    OnlyHomeHoldsIt(groups, HomeKey(row, field, labelKey), row);
  }

  /** The rows of all groups, one group after another. */
  function AllItems(groups: seq<Group<Row>>): seq<Row> {
    if groups == [] then [] else AllItems(groups[..|groups| - 1]) + groups[|groups| - 1].items
  }

  lemma {:induction false} HavingCounts(rows: seq<Row>, field: GroupField, labelKey: LabelKey, key: string, x: Row)
    ensures multiset(Having(rows, field, labelKey, key))[x]
      == if FiledUnder(x, field, labelKey, key) then multiset(rows)[x] else 0
  {
    if rows == [] {
    } else {
      assert rows == rows[..|rows| - 1] + [rows[|rows| - 1]];
      HavingCounts(rows[..|rows| - 1], field, labelKey, key, x);
    }
  }

  /** If only the group of key `home` holds a row, all groups together hold it as often. */
  lemma {:induction false} ItemsCount(groups: seq<Group<Row>>, home: string, n: nat, x: Row)
    requires DistinctKeys(groups)
    requires forall g :: 0 <= g < |groups| ==> multiset(groups[g].items)[x] == if groups[g].key == home then n else 0
    ensures multiset(AllItems(groups))[x] == if HasGroup(groups, home) then n else 0
  {
    if groups == [] {
    } else {
      var front, last := groups[..|groups| - 1], groups[|groups| - 1];
      ItemsCount(front, home, n, x);
      assert multiset(AllItems(groups))[x] == multiset(AllItems(front))[x] + multiset(last.items)[x];
      if HasGroup(front, home) {
        var g :| 0 <= g < |front| && front[g].key == home;
        assert groups[g].key == home;
      }
      assert HasGroup(groups, home) <==> HasGroup(front, home) || last.key == home by {
        if last.key == home { assert groups[|groups| - 1].key == home; }
        if HasGroup(groups, home) && last.key != home {
          var g :| 0 <= g < |groups| && groups[g].key == home;
          assert front[g].key == home;
        }
      }
    }
  }

  lemma GroupCounts(rows: seq<Row>, field: GroupField, labelKey: LabelKey, x: Row, g: nat)
    requires DistinctRows(rows) && (field.OfStatus? || field.OfSeries?) && g < |GroupsOf(rows, field, labelKey)|
    ensures var group := GroupsOf(rows, field, labelKey)[g];
      multiset(group.items)[x] == if group.key == HomeKey(x, field, labelKey) then multiset(rows)[x] else 0
  {
    var key := GroupsOf(rows, field, labelKey)[g].key;
    GroupsShowExactlyTheirRows(rows, field, labelKey, key);
    HavingCounts(rows, field, labelKey, key, x);
    FiledAtHome(x, field, labelKey, key);
  }

  lemma RowCountsOnce(rows: seq<Row>, field: GroupField, labelKey: LabelKey, x: Row)
    requires DistinctRows(rows) && (field.OfStatus? || field.OfSeries?)
    ensures multiset(AllItems(GroupsOf(rows, field, labelKey)))[x] == multiset(rows)[x]
  {
    var home, groups := HomeKey(x, field, labelKey), GroupsOf(rows, field, labelKey);
    KeysAreDistinct(rows, field, labelKey);
    forall g | 0 <= g < |groups|
      ensures multiset(groups[g].items)[x] == if groups[g].key == home then multiset(rows)[x] else 0
    {
      GroupCounts(rows, field, labelKey, x, g);
    }
    ItemsCount(groups, home, multiset(rows)[x], x);
    if x in rows { HomeHasGroup(rows, field, labelKey, x); }
  }

  /** By status or by series the groups, put together, are the rows: none lost, none doubled,
      and the group sizes add up. */
  lemma GroupsArePartition(rows: seq<Row>, field: GroupField, labelKey: LabelKey)
    requires DistinctRows(rows) && (field.OfStatus? || field.OfSeries?)
    ensures multiset(AllItems(GroupsOf(rows, field, labelKey))) == multiset(rows)
    ensures |AllItems(GroupsOf(rows, field, labelKey))| == |rows|
  {
    var all := AllItems(GroupsOf(rows, field, labelKey));
    forall x ensures multiset(all)[x] == multiset(rows)[x] { RowCountsOnce(rows, field, labelKey, x); }
    assert multiset(all) == multiset(rows);
    SameLength(all, rows);
  }
}
