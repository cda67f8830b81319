/** What an answer of the library query shows (`queryLibrary` of ui/js/private-store.js): the rows
    the filter keeps and no others, counted right, each of them somewhere. */
module Queries {
  import opened Texts
  import opened Ordering
  import opened Paging
  import opened Grouping

  /** The rows the filter keeps, by their places. */
  function KeptPlaces(rows: seq<Row>, keep: Row -> bool): set<int> {
    set i | 0 <= i < |rows| && keep(rows[i])
  }

  ghost predicate IsKept(rows: seq<Row>, q: Query, x: Row) { x in rows && q.keep(x) }

  // ---- The matches -----------------------------------------------------------------

  lemma FilteredOneMore(rows: seq<Row>, keep: Row -> bool)
    requires rows != []
    ensures var n := |rows| - 1;
      KeptPlaces(rows, keep) == KeptPlaces(rows[..n], keep) + if keep(rows[n]) then {n} else {}
  {
    var n := |rows| - 1;
    assert forall i :: 0 <= i < n ==> rows[..n][i] == rows[i];
  }

  lemma {:induction false} FilteredSize(rows: seq<Row>, keep: Row -> bool)
    ensures |Filtered(rows, keep)| == |KeptPlaces(rows, keep)|
  {
    if rows == [] {
      assert KeptPlaces(rows, keep) == {};
    } else {
      FilteredSize(rows[..|rows| - 1], keep);
      FilteredOneMore(rows, keep);
      assert |rows| - 1 !in KeptPlaces(rows[..|rows| - 1], keep);
    }
  }

  /** The matches are the kept rows, each as often as it occurs. */
  lemma MatchedAreKept(rows: seq<Row>, q: Query, show: Show)
    ensures |Matched(rows, q, show)| == |KeptPlaces(rows, q.keep)|
    ensures forall x :: multiset(Matched(rows, q, show))[x] == if q.keep(x) then multiset(rows)[x] else 0
    ensures forall x :: x in Matched(rows, q, show) <==> IsKept(rows, q, x)
  {
    var filtered, matched := Filtered(rows, q.keep), Matched(rows, q, show);
    FilteredSize(rows, q.keep);
    SortKeepsElements(filtered, RowOrder(q.session, show));
    assert |matched| == |multiset(matched)| == |filtered|;
    forall x ensures multiset(matched)[x] == if q.keep(x) then multiset(rows)[x] else 0 { FilteredCounts(rows, q.keep, x); }
    forall x ensures x in matched <==> IsKept(rows, q, x) {
      assert x in matched <==> multiset(matched)[x] > 0;
      assert x in rows <==> multiset(rows)[x] > 0;
    }
  }

  lemma MatchedAreInOrder(rows: seq<Row>, q: Query, show: Show)
    requires Sortable(rows, q.session.field, Some(BySeriesPosition))
    ensures SortedBy(Matched(rows, q, show), RowOrder(q.session, show))
  {
    RowOrderIsTotal(rows, q.session, show);
    forall x | x in Filtered(rows, q.keep) ensures x in rows {
      FilteredCounts(rows, q.keep, x);
      assert multiset(Filtered(rows, q.keep))[x] > 0;
    }
    SortSorts(Filtered(rows, q.keep), RowOrder(q.session, show), rows);
  }

  lemma MatchedAreDistinct(rows: seq<Row>, q: Query, show: Show)
    requires DistinctRows(rows)
    ensures DistinctRows(Matched(rows, q, show))
  {
    MatchedAreKept(rows, q, show);
    FewerAreDistinct(rows, Matched(rows, q, show));
  }

  lemma FewerAreDistinct(rows: seq<Row>, some: seq<Row>)
    requires DistinctRows(rows) && forall x :: multiset(some)[x] <= multiset(rows)[x]
    ensures DistinctRows(some)
  {
    forall i, j | 0 <= i < j < |some| ensures some[i].bookId != some[j].bookId {
      assert multiset(some)[some[i]] > 0 && multiset(some)[some[j]] > 0;
      if some[i].bookId == some[j].bookId {
        SameRow(rows, some[i], some[j]);
        OccursTwice(some, i, j);
        OccursOnce(rows, some[i]);
      }
    }
  }

  lemma SameRow(rows: seq<Row>, a: Row, b: Row)
    requires DistinctRows(rows) && a in rows && b in rows && a.bookId == b.bookId
    ensures a == b
  {
    var i :| 0 <= i < |rows| && rows[i] == a;
    var j :| 0 <= j < |rows| && rows[j] == b;
  }

  lemma OccursTwice(rows: seq<Row>, i: nat, j: nat)
    requires i < j < |rows| && rows[i] == rows[j]
    ensures multiset(rows)[rows[i]] >= 2
  {
    assert rows == rows[..j] + rows[j..];
    assert rows[..j][i] == rows[i] && rows[j..][0] == rows[j];
    assert rows[i] in multiset(rows[..j]) && rows[j] in multiset(rows[j..]);
  }

  lemma {:induction false} OccursOnce(rows: seq<Row>, x: Row)
    requires DistinctRows(rows)
    ensures multiset(rows)[x] <= 1
  {
    if rows == [] {
    } else {
      var front, last := rows[..|rows| - 1], rows[|rows| - 1];
      assert rows == front + [last];
      OccursOnce(front, x);
      forall i | 0 <= i < |front| ensures front[i] != last { assert rows[i].bookId != rows[|rows| - 1].bookId; }
    }
  }

  // ---- Without groups -----------------------------------------------------------------

  /** An ungrouped answer counts the kept rows and all rows, and shows kept rows only. */
  lemma UngroupedAnswer(rows: seq<Row>, q: Query, show: Show, labelKey: LabelKey)
    requires q.groupBy.None?
    ensures
      var a := AnswerTo(rows, q, show, labelKey);
      && a.Ungrouped? && a.matched == |KeptPlaces(rows, q.keep)| && a.total == |rows|
      && (forall x :: x in a.window.items ==> IsKept(rows, q, x))
  {
    var a, matched := AnswerTo(rows, q, show, labelKey), Matched(rows, q, show);
    MatchedAreKept(rows, q, show);
    WindowShowsWhatItSays(matched, q.page, LIBRARY_PAGE_SIZE);
    forall x | x in a.window.items ensures x in matched { }
  }

  /** The rows the pages show, one page after another. */
  function ShownUpTo(rows: seq<Row>, q: Query, show: Show, labelKey: LabelKey, k: nat): seq<Row>
    requires q.groupBy.None?
  {
    if k == 0 then []
    else
      ShownUpTo(rows, q, show, labelKey, k - 1) + AnswerTo(rows, q.(page := Some(k as real)), show, labelKey).window.items
  }

  lemma {:induction false} ShownArePages(rows: seq<Row>, q: Query, show: Show, labelKey: LabelKey, k: nat)
    requires q.groupBy.None?
    ensures ShownUpTo(rows, q, show, labelKey, k) == PagesUpTo(Matched(rows, q, show), LIBRARY_PAGE_SIZE, k)
  {
    if k == 0 {
    } else {
      ShownArePages(rows, q, show, labelKey, k - 1);
    }
  }

  /** All pages together show every kept row as often as it occurs, and nothing else, in order. */
  lemma PagesShowTheKeptRows(rows: seq<Row>, q: Query, show: Show, labelKey: LabelKey)
    requires q.groupBy.None? && Sortable(rows, q.session.field, Some(BySeriesPosition))
    ensures
      var all := ShownUpTo(rows, q, show, labelKey, AnswerTo(rows, q, show, labelKey).window.pageCount);
      && (forall x :: multiset(all)[x] == if q.keep(x) then multiset(rows)[x] else 0)
      && SortedBy(all, RowOrder(q.session, show))
  {
    var matched := Matched(rows, q, show);
    ShownArePages(rows, q, show, labelKey, AnswerTo(rows, q, show, labelKey).window.pageCount);
    PagesConcatenateToTheSource(matched, LIBRARY_PAGE_SIZE);
    MatchedAreKept(rows, q, show);
    MatchedAreInOrder(rows, q, show);
  }

  // ---- With groups ---------------------------------------------------------------------

  ghost predicate ShowsRowAt(page: GroupedPage<Row>, at: int, x: Row) {
    0 <= at < |page.groups| && x in page.groups[at].visible
  }

  lemma GroupItemsAreRows(rows: seq<Row>, field: GroupField, labelKey: LabelKey, g: nat, x: Row)
    requires DistinctRows(rows) && g < |GroupsOf(rows, field, labelKey)| && x in GroupsOf(rows, field, labelKey)[g].items
    ensures x in rows && FiledUnder(x, field, labelKey, GroupsOf(rows, field, labelKey)[g].key)
  {
    var key := GroupsOf(rows, field, labelKey)[g].key;
    GroupsShowExactlyTheirRows(rows, field, labelKey, key);
    HavingListsOnlyRows(rows, field, labelKey, key);
  }

  lemma WindowItems<T>(items: seq<T>, page: Request, pageSize: nat, x: T)
    requires pageSize > 0 && x in WindowOf(items, page, pageSize).items
    ensures x in items
  {
    WindowShowsWhatItSays(items, page, pageSize);
  }

  lemma VisibleIsInItsGroup(g: Group<Row>, c: Choices, x: Row)
    requires x in Paged(g, c).visible
    ensures x in g.items && g.key !in c.collapsed
  {
    var page := if g.key in c.rowPages then c.rowPages[g.key] else Some(1.0);
    WindowItems(g.items, page, LIBRARY_GROUP_ROW_PAGE_SIZE, x);
  }

  lemma VisibleIsInAGroup(groups: seq<Group<Row>>, c: Choices, at: nat, x: Row) returns (g: nat)
    requires at < |GroupedPageOf(groups, c).groups| && x in GroupedPageOf(groups, c).groups[at].visible
    ensures g < |groups| && groups[g] == GroupedPageOf(groups, c).groups[at].group && x in groups[g].items
    ensures groups[g].key !in c.collapsed
  {
    var shown := WindowOf(groups, c.groupPage, LIBRARY_GROUP_PAGE_SIZE).items[at];
    WindowItems(groups, c.groupPage, LIBRARY_GROUP_PAGE_SIZE, shown);
    VisibleIsInItsGroup(shown, c, x);
    g :| 0 <= g < |groups| && groups[g] == shown;
  }

  /** A grouped answer counts kept rows, all rows and groups, and inside a group it shows only kept
      rows filed under its key. */
  lemma GroupedAnswer(rows: seq<Row>, q: Query, show: Show, labelKey: LabelKey)
    requires q.groupBy.Some? && DistinctRows(rows)
    ensures
      var a := AnswerTo(rows, q, show, labelKey);
      && a.Grouped? && a.matched == |KeptPlaces(rows, q.keep)| && a.total == |rows|
      && a.groupTotal == |GroupsOf(Matched(rows, q, show), q.groupBy.value, labelKey)|
      && (forall at, x :: ShowsRowAt(a.page, at, x) ==>
            IsKept(rows, q, x) && FiledUnder(x, q.groupBy.value, labelKey, a.page.groups[at].group.key))
  {
    var a, matched := AnswerTo(rows, q, show, labelKey), Matched(rows, q, show);
    MatchedAreKept(rows, q, show);
    MatchedAreDistinct(rows, q, show);
    forall at, x | ShowsRowAt(a.page, at, x)
      ensures IsKept(rows, q, x) && FiledUnder(x, q.groupBy.value, labelKey, a.page.groups[at].group.key)
    {
      var g := VisibleIsInAGroup(GroupsOf(matched, q.groupBy.value, labelKey), q.choices, at, x);
      GroupItemsAreRows(matched, q.groupBy.value, labelKey, g, x);
    }
  }

  /** Every kept row filed under an uncollapsed key is shown in its group for some choice of pages. */
  lemma EveryKeptRowIsShown(rows: seq<Row>, q: Query, show: Show, labelKey: LabelKey, row: Row, key: string)
    returns (chosen: Choices)
    requires q.groupBy.Some? && DistinctRows(rows) && IsKept(rows, q, row)
    requires FiledUnder(row, q.groupBy.value, labelKey, key) && key !in q.choices.collapsed
    ensures chosen.collapsed == q.choices.collapsed
    ensures AnswerTo(rows, q.(choices := chosen), show, labelKey).Grouped?
    ensures Shows(AnswerTo(rows, q.(choices := chosen), show, labelKey).page, key, row)
  {
    MatchedAreKept(rows, q, show);
    MatchedAreDistinct(rows, q, show);
    chosen := EveryMatchIsReachable(Matched(rows, q, show), q.groupBy.value, labelKey, row, key, q.choices);
    assert Matched(rows, q.(choices := chosen), show) == Matched(rows, q, show);
  }

  // ---- Where rows are filed ---------------------------------------------------------------

  /** By status rows share a group exactly if they share the status; by series exactly if they
      share the series, where a row without one counts as the series `unknown`. */
  lemma SameGroupExactly(a: Row, b: Row, labelKey: LabelKey)
    ensures HomeKey(a, OfStatus, labelKey) == HomeKey(b, OfStatus, labelKey) <==> a.status == b.status
    ensures HomeKey(a, OfSeries, labelKey) == HomeKey(b, OfSeries, labelKey) <==>
      (if a.seriesId.Some? then a.seriesId.value else "unknown") == (if b.seriesId.Some? then b.seriesId.value else "unknown")
  {
    var x, y := if a.seriesId.Some? then a.seriesId.value else "unknown", if b.seriesId.Some? then b.seriesId.value else "unknown";
    assert ("status:" + a.status)[7..] == a.status && ("status:" + b.status)[7..] == b.status;
    assert ("series:" + x)[7..] == x && ("series:" + y)[7..] == y;
  }

  /** The label of the name at the place of one of the people. */
  ghost predicate LabelledAt(prefix: string, ids: seq<string>, names: seq<string>, unknown: string, labelKey: LabelKey, key: string) {
    exists i :: 0 <= i < |ids| && key == prefix + labelKey(if i < |names| then names[i] else unknown)
  }

  /** By authors a row is filed under the label of the name at the place of each author, by
      narrators likewise; a row without any is filed as unknown. */
  lemma PeopleAreFiledByName(row: Row, labelKey: LabelKey, key: string)
    ensures FiledUnder(row, OfAuthors, labelKey, key) <==>
      if row.authorIds == [] then key == "author:unknown"
      else LabelledAt("author-label:", row.authorIds, row.authors, "Unknown author", labelKey, key)
    ensures FiledUnder(row, OfNarrators, labelKey, key) <==>
      if row.narratorIds == [] then key == "narrator:unknown"
      else LabelledAt("narrator-label:", row.narratorIds, row.narrators, "Unknown narrator", labelKey, key)
  {
    assert "author" + ":unknown" == "author:unknown" && "narrator" + ":unknown" == "narrator:unknown";
    assert "author" + "-label:" == "author-label:" && "narrator" + "-label:" == "narrator-label:";
    assert "Unknown " + "author" == "Unknown author" && "Unknown " + "narrator" == "Unknown narrator";
    PeopleAreFiled("author", row.authorIds, row.authors, labelKey, key);
    PeopleAreFiled("narrator", row.narratorIds, row.narrators, labelKey, key);
  }

  lemma PeopleAreFiled(kind: string, ids: seq<string>, names: seq<string>, labelKey: LabelKey, key: string)
    ensures HasKey(PeoplePlacements(kind, ids, names, labelKey), key) <==>
      if ids == [] then key == kind + ":unknown"
      else LabelledAt(kind + "-label:", ids, names, "Unknown " + kind, labelKey, key)
  {
    var placements := PeoplePlacements(kind, ids, names, labelKey);
    if ids == [] {
      assert placements == [placements[0]] && placements[0].key == kind + ":unknown";
    } else {
      forall i | 0 <= i < |ids|
        ensures placements[i].key == kind + "-label:" + labelKey(if i < |names| then names[i] else "Unknown " + kind)
      {
        assert placements[i].heading == NameAt(names, i, "Unknown " + kind);
      }
      if HasKey(placements, key) {
        var i :| 0 <= i < |placements| && placements[i].key == key;
        assert i < |ids|;
      }
      if LabelledAt(kind + "-label:", ids, names, "Unknown " + kind, labelKey, key) {
        var i :| 0 <= i < |ids| && key == kind + "-label:" + labelKey(if i < |names| then names[i] else "Unknown " + kind);
        assert placements[i].key == key;
      }
    }
  }

  // ---- What else a group says ---------------------------------------------------------------

  /** By heading, and under one heading by key. */
  ghost predicate ComesBefore(a: Group<Row>, b: Group<Row>) {
    Less(a.heading, b.heading) || (a.heading == b.heading && Less(a.key, b.key))
  }

  lemma GroupOrderIsOrdered(a: Group<Row>, b: Group<Row>, c: Group<Row>)
    requires a.key == b.key ==> a == b
    ensures Ordered(GroupOrder(), a, b, c)
  {
    TextsAreConsistent(a.heading, b.heading, c.heading);
    TextsAreConsistent(a.key, b.key, c.key);
  }

  lemma GroupOrderIsTotal(groups: seq<Group<Row>>)
    requires DistinctKeys(groups)
    ensures TotalOn(groups, GroupOrder())
  {
    forall a, b, c | a in groups && b in groups && c in groups ensures Ordered(GroupOrder(), a, b, c) {
      var i :| 0 <= i < |groups| && groups[i] == a;
      var j :| 0 <= j < |groups| && groups[j] == b;
      GroupOrderIsOrdered(a, b, c);
    }
  }

  lemma OrderedComesBefore(a: Group<Row>, b: Group<Row>)
    requires GroupOrder()(a, b) <= 0 && a.key != b.key
    ensures ComesBefore(a, b)
  {
    LessTotal(a.heading, b.heading);
    LessTotal(a.key, b.key);
  }

  /** The groups of an answer come by their headings. */
  lemma GroupsAreInOrder(rows: seq<Row>, field: GroupField, labelKey: LabelKey, g: nat, h: nat)
    requires g < h < |GroupsOf(rows, field, labelKey)|
    ensures ComesBefore(GroupsOf(rows, field, labelKey)[g], GroupsOf(rows, field, labelKey)[h])
  {
    var values := SortedValues(GroupMap(rows, field, labelKey));
    GroupMapIsKeyed(rows, field, labelKey);
    ValuesHaveDistinctKeys(GroupMap(rows, field, labelKey));
    GroupOrderIsTotal(values);
    SortSorts(values, GroupOrder(), values);
    KeysAreDistinct(rows, field, labelKey);
    var sorted := SortBy(values, GroupOrder());
    assert GroupsOf(rows, field, labelKey)[g].key != GroupsOf(rows, field, labelKey)[h].key;
    OrderedComesBefore(sorted[g], sorted[h]);
  }

  function PeopleAt(groups: Groups, key: string): seq<string> { if key in groups then groups[key].personIds else [] }

  /** A row is filed under the key because of the person. */
  ghost predicate FiledFor(placements: seq<Placement>, key: string, person: string) {
    exists i :: 0 <= i < |placements| && placements[i].key == key && placements[i].personId == Some(person) && person != ""
  }

  lemma FiledForMore(placements: seq<Placement>, key: string, person: string)
    requires placements != []
    ensures var n := |placements| - 1;
      FiledFor(placements, key, person) <==>
        FiledFor(placements[..n], key, person)
        || (placements[n].key == key && placements[n].personId == Some(person) && person != "")
  {
    var front := placements[..|placements| - 1];
    assert forall i :: 0 <= i < |front| ==> front[i] == placements[i];
    if FiledFor(front, key, person) {
      var i :| 0 <= i < |front| && front[i].key == key && front[i].personId == Some(person) && person != "";
      assert placements[i].key == key;
    }
  }

  lemma AddedPeople(groups: Groups, p: Placement, row: Row, key: string, person: string)
    ensures person in PeopleAt(Added(groups, p, row), key) <==>
      person in PeopleAt(groups, key) || (p.key == key && p.personId == Some(person) && person != "")
  {
  }

  lemma {:induction false} AddedAllPeople(groups: Groups, placements: seq<Placement>, row: Row, key: string, person: string)
    ensures person in PeopleAt(AddedAll(groups, placements, row), key) <==>
      person in PeopleAt(groups, key) || FiledFor(placements, key, person)
  {
    if placements == [] {
    } else {
      var front, last := placements[..|placements| - 1], placements[|placements| - 1];
      AddedAllPeople(groups, front, row, key, person);
      AddedPeople(AddedAll(groups, front, row), last, row, key, person);
      FiledForMore(placements, key, person);
    }
  }

  ghost predicate SomeRowFiledFor(rows: seq<Row>, field: GroupField, labelKey: LabelKey, key: string, person: string) {
    exists r :: 0 <= r < |rows| && FiledFor(Placements(rows[r], field, labelKey), key, person)
  }

  lemma SomeRowInFront(rows: seq<Row>, field: GroupField, labelKey: LabelKey, key: string, person: string)
    requires rows != [] && SomeRowFiledFor(rows[..|rows| - 1], field, labelKey, key, person)
    ensures SomeRowFiledFor(rows, field, labelKey, key, person)
  {
    var front := rows[..|rows| - 1];
    var r :| 0 <= r < |front| && FiledFor(Placements(front[r], field, labelKey), key, person);
    assert rows[r] == front[r];
  }

  lemma SomeRowInFrontOrLast(rows: seq<Row>, field: GroupField, labelKey: LabelKey, key: string, person: string)
    requires rows != [] && SomeRowFiledFor(rows, field, labelKey, key, person)
    requires !FiledFor(Placements(rows[|rows| - 1], field, labelKey), key, person)
    ensures SomeRowFiledFor(rows[..|rows| - 1], field, labelKey, key, person)
  {
    var front := rows[..|rows| - 1];
    var r :| 0 <= r < |rows| && FiledFor(Placements(rows[r], field, labelKey), key, person);
    assert r < |front| && front[r] == rows[r];
  }

  lemma LastRowFiled(rows: seq<Row>, field: GroupField, labelKey: LabelKey, key: string, person: string)
    requires rows != [] && FiledFor(Placements(rows[|rows| - 1], field, labelKey), key, person)
    ensures SomeRowFiledFor(rows, field, labelKey, key, person)
  {
  }

  lemma SomeRowMore(rows: seq<Row>, field: GroupField, labelKey: LabelKey, key: string, person: string)
    requires rows != []
    ensures var n := |rows| - 1;
      SomeRowFiledFor(rows, field, labelKey, key, person) <==>
        SomeRowFiledFor(rows[..n], field, labelKey, key, person) || FiledFor(Placements(rows[n], field, labelKey), key, person)
  {
    if FiledFor(Placements(rows[|rows| - 1], field, labelKey), key, person) {
      LastRowFiled(rows, field, labelKey, key, person);
    } else {
      if SomeRowFiledFor(rows[..|rows| - 1], field, labelKey, key, person) { SomeRowInFront(rows, field, labelKey, key, person); }
      if SomeRowFiledFor(rows, field, labelKey, key, person) { SomeRowInFrontOrLast(rows, field, labelKey, key, person); }
    }
  }

  lemma {:induction false} GroupMapPeople(rows: seq<Row>, field: GroupField, labelKey: LabelKey, key: string, person: string)
    ensures person in PeopleAt(GroupMap(rows, field, labelKey), key) <==> SomeRowFiledFor(rows, field, labelKey, key, person)
  {
    if rows == [] {
    } else {
      var n := |rows| - 1;
      GroupMapPeople(rows[..n], field, labelKey, key, person);
      AddedAllPeople(GroupMap(rows[..n], field, labelKey), Placements(rows[n], field, labelKey), rows[n], key, person);
      SomeRowMore(rows, field, labelKey, key, person);
    }
  }

  /** A group comes from the map, with its people in order. */
  lemma GroupComesFrom(rows: seq<Row>, field: GroupField, labelKey: LabelKey, g: nat)
    requires g < |GroupsOf(rows, field, labelKey)|
    ensures var m, group := GroupMap(rows, field, labelKey), GroupsOf(rows, field, labelKey)[g];
      group.key in m && group.heading == m[group.key].heading && group.personIds == SortedIds(AsSet(m[group.key].personIds))
  {
    var m := GroupMap(rows, field, labelKey);
    var values := SortedValues(m);
    GroupMapIsKeyed(rows, field, labelKey);
    SortedMembers(values, GroupOrder(), g);
    var group := SortBy(values, GroupOrder())[g];
    SortedValuesAt(m);
    var k :| 0 <= k < |values| && values[k] == group;
    assert m[SortedIds(m.Keys)[k]] == group;
  }

  /** The people of a group are exactly those some row is filed for under its key, each once. */
  lemma GroupPeopleExactly(rows: seq<Row>, field: GroupField, labelKey: LabelKey, g: nat, person: string)
    requires g < |GroupsOf(rows, field, labelKey)|
    ensures var group := GroupsOf(rows, field, labelKey)[g];
      && (person in group.personIds <==> SomeRowFiledFor(rows, field, labelKey, group.key, person))
      && Ascending(group.personIds)
  {
    var group := GroupsOf(rows, field, labelKey)[g];
    GroupComesFrom(rows, field, labelKey, g);
    GroupMapPeople(rows, field, labelKey, group.key, person);
    SortedIdsElements(AsSet(PeopleAt(GroupMap(rows, field, labelKey), group.key)));
    SortedIdsAscending(AsSet(PeopleAt(GroupMap(rows, field, labelKey), group.key)));
  }

  /** The row is filed under the key with that heading. */
  ghost predicate Headed(placements: seq<Placement>, key: string, heading: string) {
    exists i :: 0 <= i < |placements| && placements[i].key == key && placements[i].heading == heading
  }

  lemma {:induction false} AddedAllHeading(groups: Groups, placements: seq<Placement>, row: Row, key: string)
    requires key in AddedAll(groups, placements, row)
    ensures var heading := AddedAll(groups, placements, row)[key].heading;
      if key in groups then heading == groups[key].heading else Headed(placements, key, heading)
  {
    if placements == [] {
    } else {
      var n := |placements| - 1;
      var before := AddedAll(groups, placements[..n], row);
      AddedAllKeepsKeys(groups, placements[..n], row);
      if key in before {
        AddedAllHeading(groups, placements[..n], row, key);
        if key !in groups { HeadedInMore(placements, key, before[key].heading); }
      } else {
        assert placements[n].key == key;
      }
    }
  }

  lemma {:induction false} AddedAllKeepsKeys(groups: Groups, placements: seq<Placement>, row: Row)
    ensures groups.Keys <= AddedAll(groups, placements, row).Keys
  {
    if placements == [] {
    } else {
      AddedAllKeepsKeys(groups, placements[..|placements| - 1], row);
    }
  }

  lemma HeadedInMore(placements: seq<Placement>, key: string, heading: string)
    requires placements != [] && Headed(placements[..|placements| - 1], key, heading)
    ensures Headed(placements, key, heading)
  {
    var front := placements[..|placements| - 1];
    var i :| 0 <= i < |front| && front[i].key == key && front[i].heading == heading;
    assert placements[i] == front[i];
  }

  lemma {:induction false} GroupMapHeading(rows: seq<Row>, field: GroupField, labelKey: LabelKey, key: string) returns (r: nat)
    requires key in GroupMap(rows, field, labelKey)
    ensures r < |rows| && Headed(Placements(rows[r], field, labelKey), key, GroupMap(rows, field, labelKey)[key].heading)
    ensures forall j :: 0 <= j < r ==> !FiledUnder(rows[j], field, labelKey, key)
  {
    var n := |rows| - 1;
    var before := GroupMap(rows[..n], field, labelKey);
    AddedAllHeading(before, Placements(rows[n], field, labelKey), rows[n], key);
    if key in before {
      r := GroupMapHeading(rows[..n], field, labelKey, key);
      assert forall j :: 0 <= j <= r ==> rows[..n][j] == rows[j];
    } else {
      r := n;
      forall j | 0 <= j < n ensures !FiledUnder(rows[j], field, labelKey, key) {
        if FiledUnder(rows[j], field, labelKey, key) { FiledHasGroup(rows[..n], field, labelKey, j, key); }
      }
    }
  }

  lemma GroupMapOneMore(rows: seq<Row>, field: GroupField, labelKey: LabelKey)
    requires rows != []
    ensures var n := |rows| - 1;
      GroupMap(rows, field, labelKey)
        == AddedAll(GroupMap(rows[..n], field, labelKey), Placements(rows[n], field, labelKey), rows[n])
  {
  }

  lemma {:induction false} FiledHasGroup(rows: seq<Row>, field: GroupField, labelKey: LabelKey, j: nat, key: string)
    requires j < |rows| && FiledUnder(rows[j], field, labelKey, key)
    ensures key in GroupMap(rows, field, labelKey)
    decreases |rows|
  {
    var n := |rows| - 1;
    GroupMapOneMore(rows, field, labelKey);
    if j == n {
      PlacedHasGroup(GroupMap(rows[..n], field, labelKey), Placements(rows[n], field, labelKey), rows[n], key);
    } else {
      assert rows[..n][j] == rows[j];
      FiledHasGroup(rows[..n], field, labelKey, j, key);
      AddedAllKeepsKeys(GroupMap(rows[..n], field, labelKey), Placements(rows[n], field, labelKey), rows[n]);
    }
  }

  lemma {:induction false} PlacedHasGroup(groups: Groups, placements: seq<Placement>, row: Row, key: string)
    requires HasKey(placements, key)
    ensures key in AddedAll(groups, placements, row)
  {
    HasKeyFromFront(placements, key);
    if placements[|placements| - 1].key == key {
    } else {
      PlacedHasGroup(groups, placements[..|placements| - 1], row, key);
    }
  }

  /** A group has the heading its first row is filed with. */
  lemma GroupHeadingIsTheFirst(rows: seq<Row>, field: GroupField, labelKey: LabelKey, g: nat) returns (r: nat)
    requires g < |GroupsOf(rows, field, labelKey)|
    ensures var group := GroupsOf(rows, field, labelKey)[g];
      && r < |rows| && Headed(Placements(rows[r], field, labelKey), group.key, group.heading)
      && forall j :: 0 <= j < r ==> !FiledUnder(rows[j], field, labelKey, group.key)
  {
    GroupComesFrom(rows, field, labelKey, g);
    r := GroupMapHeading(rows, field, labelKey, GroupsOf(rows, field, labelKey)[g].key);
  }
}
