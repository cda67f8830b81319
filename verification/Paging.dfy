/** Which rows may be rendered right now: src/core/paginate.js. */
module Paging {
  import opened Texts

  const LIBRARY_PAGE_SIZE: nat := 50
  const LIBRARY_GROUP_PAGE_SIZE: nat := 5
  const LIBRARY_GROUP_ROW_PAGE_SIZE: nat := 10
  const LIBRARY_GROUPED_ROW_CEILING: nat := LIBRARY_GROUP_PAGE_SIZE * LIBRARY_GROUP_ROW_PAGE_SIZE

  /** A page number as a caller may supply it; None is one that is not finite. */
  type Request = Option<real>

  datatype Window<T> = Window(
    items: seq<T>, total: nat, page: nat, pageCount: nat, pageSize: nat,
    firstIndex: nat, lastIndex: nat, hasPrevious: bool, hasNext: bool)

  function PageCountFor(total: nat, pageSize: nat): (r: nat)
    requires pageSize > 0
    ensures r >= 1
    ensures total > 0 ==> (r - 1) * pageSize < total <= r * pageSize
  {
    if total == 0 then 1
    else
      CeilingDivision(total, pageSize);
      (total + pageSize - 1) / pageSize
  }

  lemma Scale(a: int, b: int, d: nat)
    requires a <= b
    ensures a * d <= b * d
  {
  }

  lemma CeilingDivision(n: nat, d: nat)
    requires n > 0 && d > 0
    ensures var r := (n + d - 1) / d; r >= 1 && (r - 1) * d < n <= r * d
  {
    var r, m := (n + d - 1) / d, (n + d - 1) % d;
    assert n + d - 1 == r * d + m;
    assert (r - 1) * d == r * d - d;
  }

  /** Where page `page` starts, against where the source ends. */
  lemma PageStart(total: nat, pageSize: nat, page: nat)
    requires pageSize > 0 && total > 0 && 1 <= page <= PageCountFor(total, pageSize)
    ensures 0 <= (page - 1) * pageSize < total
    ensures page < PageCountFor(total, pageSize) <==> (page - 1) * pageSize + pageSize < total
    ensures page > 1 <==> (page - 1) * pageSize >= 1
  {
    var n := PageCountFor(total, pageSize);
    assert (page - 1) * pageSize + pageSize == page * pageSize;
    Scale(page - 1, n - 1, pageSize);
    if page < n { Scale(page, n - 1, pageSize); }
    if page > 1 { Scale(1, page - 1, pageSize); }
  }

  /** The page that covers index i. */
  lemma PageOfIndex(i: nat, pageSize: nat, k: nat)
    requires pageSize > 0 && k >= 1
    ensures (k - 1) * pageSize <= i < (k - 1) * pageSize + pageSize <==> k == i / pageSize + 1
    ensures k == i / pageSize + 1 ==> i - (k - 1) * pageSize == i % pageSize
  {
    var p, q := i / pageSize, i % pageSize;
    assert i == p * pageSize + q && 0 <= q < pageSize;
    assert (k - 1) * pageSize + pageSize == k * pageSize;
    assert (p + 1) * pageSize == p * pageSize + pageSize;
    if k - 1 < p { Scale(k, p, pageSize); }
    if k - 1 > p { Scale(p + 1, k - 1, pageSize); }
  }

  function Trunc(x: real): int { if x >= 0.0 then x.Floor else -((-x).Floor) }

  function ClampPage(page: Request, pageCount: nat): (r: nat)
    requires pageCount >= 1
    ensures 1 <= r <= pageCount
    ensures page.Some? && 1 <= Trunc(page.value) <= pageCount ==> r == Trunc(page.value)
    ensures page.None? || Trunc(page.value) < 1 ==> r == 1
    ensures page.Some? && Trunc(page.value) > pageCount ==> r == pageCount
  {
    var value := if page.Some? then Trunc(page.value) else 1;
    if value < 1 then 1 else if value < pageCount then value else pageCount
  }

  function WindowOf<T>(items: seq<T>, page: Request, pageSize: nat): Window<T>
    requires pageSize > 0
  {
    var total := |items|;
    var pageCount := PageCountFor(total, pageSize);
    var current := ClampPage(page, pageCount);
    var start := (current - 1) * pageSize;
    var from, upto := Least2(start, total), Least2(start + pageSize, total);
    var slice := items[from..upto];
    Window(slice, total, current, pageCount, pageSize, if total == 0 then 0 else start + 1, start + |slice|,
           current > 1, current < pageCount)
  }

  function Least2(a: nat, b: nat): nat { if a < b then a else b }

  /** A window is a bounded, real page of its source, described by the indices it reports. */
  lemma WindowShowsWhatItSays<T>(items: seq<T>, page: Request, pageSize: nat)
    requires pageSize > 0
    ensures var w := WindowOf(items, page, pageSize);
      && |w.items| <= pageSize && w.total == |items|
      && (items == [] ==> w.items == [] && w.firstIndex == 0 == w.lastIndex)
      && (items != [] ==>
            && 1 <= w.firstIndex <= w.lastIndex <= |items|
            && w.items == items[w.firstIndex - 1..w.lastIndex] && w.items != []
            && (w.hasPrevious <==> w.firstIndex > 1)
            && (w.hasNext <==> w.lastIndex < |items|))
  {
    var w := WindowOf(items, page, pageSize);
    if items != [] { PageStart(|items|, pageSize, w.page); }
  }

  /** It is the requested page if there is one, else the nearest, and starts where that page does. */
  lemma WindowIsThePage<T>(items: seq<T>, page: Request, pageSize: nat)
    requires pageSize > 0
    ensures var w := WindowOf(items, page, pageSize);
      && w.pageSize == pageSize && 1 <= w.page <= w.pageCount == PageCountFor(|items|, pageSize)
      && (w.hasPrevious <==> w.page > 1) && (w.hasNext <==> w.page < w.pageCount)
      && (items != [] ==> w.firstIndex == (w.page - 1) * pageSize + 1)
      && (page.None? || Trunc(page.value) < 1 ==> w.page == 1)
      && (page.Some? && Trunc(page.value) > w.pageCount ==> w.page == w.pageCount)
      && (page.Some? && 1 <= Trunc(page.value) <= w.pageCount ==> w.page == Trunc(page.value))
  {
    var w := WindowOf(items, page, pageSize);
    if items != [] { PageStart(|items|, pageSize, w.page); }
  }

  function PagesUpTo<T>(items: seq<T>, pageSize: nat, k: nat): seq<T>
    requires pageSize > 0
  {
    if k == 0 then [] else PagesUpTo(items, pageSize, k - 1) + WindowOf(items, Some(k as real), pageSize).items
  }

  /** The window of a page adds the next part of the source. */
  lemma WindowExtendsPrefix<T>(items: seq<T>, pageSize: nat, k: nat, start: nat)
    requires pageSize > 0 && items != [] && 1 <= k <= PageCountFor(|items|, pageSize) && start == (k - 1) * pageSize
    ensures items[..Least2(start, |items|)] + WindowOf(items, Some(k as real), pageSize).items
      == items[..Least2(start + pageSize, |items|)]
  {
    WindowAt(items, pageSize, k, start);
  }

  lemma OnePageLess(k: nat, pageSize: nat)
    requires k > 0
    ensures (k - 1) * pageSize == k * pageSize - pageSize && k * pageSize >= pageSize
  {
  }

  lemma {:induction false} PagesArePrefixes<T>(items: seq<T>, pageSize: nat, k: nat, shown: nat)
    requires pageSize > 0 && items != [] && k <= PageCountFor(|items|, pageSize) && shown == k * pageSize
    ensures PagesUpTo(items, pageSize, k) == items[..Least2(shown, |items|)]
  {
    if k == 0 {
    } else {
      OnePageLess(k, pageSize);
      var before := shown - pageSize;
      PagesArePrefixes(items, pageSize, k - 1, before);
      WindowExtendsPrefix(items, pageSize, k, before);
    }
  }

  lemma NoPagesOfNothing<T>(pageSize: nat)
    requires pageSize > 0
    ensures PagesUpTo<T>([], pageSize, 1) == []
  {
    assert PagesUpTo<T>([], pageSize, 0) == [];
  }

  /** Nothing is lost and nothing is shown twice: the pages, one after another, are the source. */
  lemma PagesConcatenateToTheSource<T>(items: seq<T>, pageSize: nat)
    requires pageSize > 0
    ensures PagesUpTo(items, pageSize, PageCountFor(|items|, pageSize)) == items
  {
    if items == [] {
      NoPagesOfNothing<T>(pageSize);
    } else {
      var n := PageCountFor(|items|, pageSize);
      PagesArePrefixes(items, pageSize, n, n * pageSize);
    }
  }

  /** Item i is shown by one page and by no other. */
  lemma ItemIsOnExactlyOnePage<T>(items: seq<T>, pageSize: nat, i: nat, k: nat)
    requires pageSize > 0 && i < |items| && 1 <= k <= PageCountFor(|items|, pageSize)
    ensures i / pageSize + 1 <= PageCountFor(|items|, pageSize)
    ensures var w := WindowOf(items, Some(k as real), pageSize);
      && (w.firstIndex <= i + 1 <= w.lastIndex <==> k == i / pageSize + 1)
      && (k == i / pageSize + 1 ==> i % pageSize < |w.items| && w.items[i % pageSize] == items[i])
  {
    LastPageCovers(|items|, pageSize, i);
    PageOfIndex(i, pageSize, k);
    WindowAt(items, pageSize, k, (k - 1) * pageSize);
  }

  lemma LastPageCovers(total: nat, pageSize: nat, i: nat)
    requires pageSize > 0 && i < total
    ensures i / pageSize + 1 <= PageCountFor(total, pageSize)
  {
    PageOfIndex(i, pageSize, i / pageSize + 1);
    var n := PageCountFor(total, pageSize);
    if i / pageSize + 1 > n { Scale(n, i / pageSize, pageSize); }
  }

  lemma WindowAt<T>(items: seq<T>, pageSize: nat, k: nat, start: nat)
    requires pageSize > 0 && items != [] && 1 <= k <= PageCountFor(|items|, pageSize) && start == (k - 1) * pageSize
    ensures var w := WindowOf(items, Some(k as real), pageSize);
      start < |items| && w.firstIndex == start + 1 && w.lastIndex == Least2(start + pageSize, |items|)
      && w.items == items[start..w.lastIndex]
  {
    PageStart(|items|, pageSize, k);
    assert Trunc(k as real) == k;
  }

  // ---- Ungrouped and grouped pages ---------------------------------------------

  function PaginateRows<T>(rows: seq<T>, page: Request): Window<T> { WindowOf(rows, page, LIBRARY_PAGE_SIZE) }

  datatype Group<T> = Group(key: string, heading: string, personIds: seq<string>, items: seq<T>)

  /** A group as a page renders it; `total` is its real size. */
  datatype PagedGroup<T> = PagedGroup(group: Group<T>, visible: seq<T>, expanded: bool, total: nat, window: Window<T>)

  datatype GroupedPage<T> = GroupedPage(groups: seq<PagedGroup<T>>, window: Window<Group<T>>, renderedRowCount: nat)

  /** What the reader chose: child pages by group key, and which groups are collapsed. */
  datatype Choices = Choices(groupPage: Request, rowPages: map<string, Request>, collapsed: set<string>)

  function Paged<T>(g: Group<T>, c: Choices): PagedGroup<T> {
    var child := WindowOf(g.items, if g.key in c.rowPages then c.rowPages[g.key] else Some(1.0), LIBRARY_GROUP_ROW_PAGE_SIZE);
    var expanded := g.key !in c.collapsed;
    PagedGroup(g, if expanded then child.items else [], expanded, |g.items|, child)
  }

  function RenderedRows<T>(groups: seq<PagedGroup<T>>): nat {
    if groups == [] then 0 else RenderedRows(groups[..|groups| - 1]) + |groups[|groups| - 1].visible|
  }

  function GroupedPageOf<T>(groups: seq<Group<T>>, c: Choices): GroupedPage<T> {
    var w := WindowOf(groups, c.groupPage, LIBRARY_GROUP_PAGE_SIZE);
    var paged := seq(|w.items|, i requires 0 <= i < |w.items| => Paged(w.items[i], c));
    GroupedPage(paged, w, RenderedRows(paged))
  }

  lemma PagedIsBounded<T>(g: Group<T>, c: Choices)
    ensures |Paged(g, c).visible| <= LIBRARY_GROUP_ROW_PAGE_SIZE
  {
    var page := if g.key in c.rowPages then c.rowPages[g.key] else Some(1.0);
    WindowShowsWhatItSays(g.items, page, LIBRARY_GROUP_ROW_PAGE_SIZE);
  }

  method PageEachGroup<T>(groups: seq<Group<T>>, c: Choices) returns (paged: seq<PagedGroup<T>>, rendered: nat)
    ensures |paged| == |groups| && PagedSoFar(groups, c, paged)
    ensures rendered == RenderedRows(paged) && rendered <= |groups| * 10
  {
    rendered, paged := 0, [];
    for i := 0 to |groups|
      invariant |paged| == i && PagedSoFar(groups, c, paged)
      invariant rendered == RenderedRows(paged) && rendered <= i * 10
    {
      var next := Paged(groups[i], c);
      PagedIsBounded(groups[i], c);
      OneMoreGroup(paged, next);
      OneMorePaged(groups, c, paged, i);
      rendered := rendered + |next.visible|;
      paged := paged + [next];
    }
  }

  ghost predicate PagedSoFar<T>(groups: seq<Group<T>>, c: Choices, paged: seq<PagedGroup<T>>) {
    |paged| <= |groups| && forall k :: 0 <= k < |paged| ==> paged[k] == Paged(groups[k], c)
  }

  lemma OneMorePaged<T>(groups: seq<Group<T>>, c: Choices, paged: seq<PagedGroup<T>>, i: nat)
    requires i < |groups| && |paged| == i && PagedSoFar(groups, c, paged)
    ensures PagedSoFar(groups, c, paged + [Paged(groups[i], c)])
  {
  }

  lemma OneMoreGroup<T>(groups: seq<PagedGroup<T>>, g: PagedGroup<T>)
    ensures RenderedRows(groups + [g]) == RenderedRows(groups) + |g.visible|
  {
    assert (groups + [g])[..|groups|] == groups;
  }

  method PaginateGroups<T>(groups: seq<Group<T>>, c: Choices) returns (r: GroupedPage<T>)
    ensures r == GroupedPageOf(groups, c)
    ensures r.renderedRowCount <= LIBRARY_GROUPED_ROW_CEILING
  {
    var bounded := WindowOf(groups, c.groupPage, LIBRARY_GROUP_PAGE_SIZE);
    WindowShowsWhatItSays(groups, c.groupPage, LIBRARY_GROUP_PAGE_SIZE);
    var paged, rendered := PageEachGroup(bounded.items, c);
    assert paged == GroupedPageOf(groups, c).groups;
    r := GroupedPage(paged, bounded, rendered);
  }

  /** The page that covers item i shows it at its place there. */
  lemma ItemIsShown<T>(items: seq<T>, page: Request, pageSize: nat, i: nat)
    requires pageSize > 0 && i < |items| && page == Some((i / pageSize + 1) as real)
    ensures i % pageSize < |WindowOf(items, page, pageSize).items|
    ensures WindowOf(items, page, pageSize).items[i % pageSize] == items[i]
  {
    LastPageCovers(|items|, pageSize, i);
    ItemIsOnExactlyOnePage(items, pageSize, i, i / pageSize + 1);
  }

  ghost predicate ShowsRow<T>(page: GroupedPage<T>, at: nat, row: nat, g: Group<T>, x: T) {
    && at < |page.groups| && page.groups[at].group == g && page.groups[at].total == |g.items|
    && row < |page.groups[at].visible| && page.groups[at].visible[row] == x
  }

  lemma ShownInItsGroup<T>(groups: seq<Group<T>>, c: Choices, g: Group<T>, at: nat, row: nat, x: T)
    requires g.key !in c.collapsed && g.key in c.rowPages
    requires at < |WindowOf(groups, c.groupPage, LIBRARY_GROUP_PAGE_SIZE).items|
    requires WindowOf(groups, c.groupPage, LIBRARY_GROUP_PAGE_SIZE).items[at] == g
    requires row < |WindowOf(g.items, c.rowPages[g.key], LIBRARY_GROUP_ROW_PAGE_SIZE).items|
    requires WindowOf(g.items, c.rowPages[g.key], LIBRARY_GROUP_ROW_PAGE_SIZE).items[row] == x
    ensures ShowsRow(GroupedPageOf(groups, c), at, row, g, x)
  {
  }

  /** Every row of every expanded group is on some group page and some child page of it. */
  lemma EveryGroupedRowIsReachable<T>(groups: seq<Group<T>>, g: nat, i: nat, c: Choices)
    requires g < |groups| && i < |groups[g].items| && groups[g].key !in c.collapsed
    ensures var chosen := c.(groupPage := Some((g / LIBRARY_GROUP_PAGE_SIZE + 1) as real),
                             rowPages := c.rowPages[groups[g].key := Some((i / LIBRARY_GROUP_ROW_PAGE_SIZE + 1) as real)]);
      ShowsRow(GroupedPageOf(groups, chosen), g % LIBRARY_GROUP_PAGE_SIZE, i % LIBRARY_GROUP_ROW_PAGE_SIZE,
               groups[g], groups[g].items[i])
  {
    var groupPage: Request := Some((g / LIBRARY_GROUP_PAGE_SIZE + 1) as real);
    var rowPage: Request := Some((i / LIBRARY_GROUP_ROW_PAGE_SIZE + 1) as real);
    var chosen := c.(groupPage := groupPage, rowPages := c.rowPages[groups[g].key := rowPage]);
    ItemIsShown(groups, groupPage, LIBRARY_GROUP_PAGE_SIZE, g);
    ItemIsShown(groups[g].items, rowPage, LIBRARY_GROUP_ROW_PAGE_SIZE, i);
    ShownInItsGroup(groups, chosen, groups[g], g % LIBRARY_GROUP_PAGE_SIZE, i % LIBRARY_GROUP_ROW_PAGE_SIZE, groups[g].items[i]);
  }

  /** A group as it should be shown: its real size, and a child page of it unless it is collapsed. */
  ghost predicate ShownAs<T>(p: PagedGroup<T>, g: Group<T>, c: Choices) {
    && p.group == g && p.total == |g.items| && |p.visible| <= 10
    && (p.expanded <==> g.key !in c.collapsed)
    && (!p.expanded ==> p.visible == [])
    && (p.expanded && g.items != [] ==>
          1 <= p.window.firstIndex <= p.window.lastIndex <= |g.items|
          && p.visible == g.items[p.window.firstIndex - 1..p.window.lastIndex] && p.visible != [])
    && (p.expanded && g.key !in c.rowPages ==> p.window.page == 1)
  }

  lemma PagedTells<T>(g: Group<T>, c: Choices)
    ensures ShownAs(Paged(g, c), g, c)
  {
    var page := if g.key in c.rowPages then c.rowPages[g.key] else Some(1.0);
    WindowShowsWhatItSays(g.items, page, LIBRARY_GROUP_ROW_PAGE_SIZE);
    WindowIsThePage(g.items, page, LIBRARY_GROUP_ROW_PAGE_SIZE);
    assert Trunc(1.0) == 1;
  }

  lemma GroupIsPaged<T>(groups: seq<Group<T>>, c: Choices, at: nat)
    requires at < |WindowOf(groups, c.groupPage, LIBRARY_GROUP_PAGE_SIZE).items|
    ensures |GroupedPageOf(groups, c).groups| == |WindowOf(groups, c.groupPage, LIBRARY_GROUP_PAGE_SIZE).items|
    ensures var w := WindowOf(groups, c.groupPage, LIBRARY_GROUP_PAGE_SIZE);
      ShownAs(GroupedPageOf(groups, c).groups[at], w.items[at], c)
  {
    PagedTells(WindowOf(groups, c.groupPage, LIBRARY_GROUP_PAGE_SIZE).items[at], c);
  }

  /** A grouped page shows the next groups of the list, at most five, each as it should be. */
  lemma GroupedPageTells<T>(groups: seq<Group<T>>, c: Choices)
    requires groups != []
    ensures var p := GroupedPageOf(groups, c);
      && 1 <= |p.groups| <= 5 && p.window.total == |groups|
      && 1 <= p.window.firstIndex <= p.window.lastIndex <= |groups|
      && p.window.items == groups[p.window.firstIndex - 1..p.window.lastIndex] && |p.groups| == |p.window.items|
      && forall at :: 0 <= at < |p.groups| ==> ShownAs(p.groups[at], p.window.items[at], c)
  {
    var p := GroupedPageOf(groups, c);
    WindowShowsWhatItSays(groups, c.groupPage, LIBRARY_GROUP_PAGE_SIZE);
    forall at | 0 <= at < |p.groups| ensures ShownAs(p.groups[at], p.window.items[at], c) {
      GroupIsPaged(groups, c, at);
    }
  }
}
