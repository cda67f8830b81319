/** The bounded paging loop: `collect_library_pages` of
    connector/atnr_connector/service.py. */
module Capture {
  import opened Texts

  const MAX_PAGES := 20
  const PAGE_SIZE := 1000
  const MAX_ITEMS := 20000
  const MAX_RESPONSE_BYTES := 26214400

  datatype Item = NotAnObject | Item(asin: Option<string>, rest: string)

  /** A decoded response and the length of its serialization. */
  datatype Response = Malformed(size: nat) | Response(items: seq<Item>, size: nat)

  datatype Stop =
    | ResponseInvalid | PageOversized | ResponseTooLarge | PaginationDuplicate | ItemLimit | PageLimit

  datatype Basis = EmptyFirstPage | ShortFinalPage

  datatype Capture = Capture(items: seq<Item>, basis: Basis, pagesRead: nat, bytes: nat)

  type Source = nat -> Response

  predicate HasKey(item: Item) { item.Item? && item.asin.Some? && Strip(item.asin.value) != "" }

  function KeyOf(item: Item): string
    requires HasKey(item)
  {
    Strip(item.asin.value)
  }

  // ---- The walk over pages -------------------------------------------------

  function Scanned(items: seq<Item>, seen: set<string>): Result<set<string>, Stop> {
    if items == [] then Ok(seen)
    else
      var before := Scanned(items[..|items| - 1], seen);
      var raw := items[|items| - 1];
      if before.Err? then before
      else if !HasKey(raw) then Err(ResponseInvalid)
      else if KeyOf(raw) in before.value then Err(PaginationDuplicate)
      else Ok(before.value + {KeyOf(raw)})
  }

  /** What one response does to a collection under way. */
  datatype Progress = Failed(stop: Stop) | Done(capture: Capture) | More(items: seq<Item>, seen: set<string>, bytes: nat)

  function ReadPage(response: Response, page: nat, items: seq<Item>, seen: set<string>, bytes: nat): Progress {
    if response.Malformed? then Failed(ResponseInvalid)
    else
      var total, all, scanned := bytes + response.size, items + response.items, Scanned(response.items, seen);
      if |response.items| > PAGE_SIZE then Failed(PageOversized)
      else if total > MAX_RESPONSE_BYTES then Failed(ResponseTooLarge)
      else if scanned.Err? then Failed(scanned.error)
      else if |all| > MAX_ITEMS then Failed(ItemLimit)
      else if |response.items| < PAGE_SIZE then
        Done(Capture(all, if page == 1 && response.items == [] then EmptyFirstPage else ShortFinalPage, page, total))
      else More(all, scanned.value, total)
  }

  function CollectedFrom(fetch: Source, page: nat, items: seq<Item>, seen: set<string>, bytes: nat): Result<Capture, Stop>
    decreases MAX_PAGES + 1 - page
  {
    if page > MAX_PAGES then Err(PageLimit)
    else
      match ReadPage(fetch(page), page, items, seen, bytes)
      case Failed(stop) => Err(stop)
      case Done(capture) => Ok(capture)
      case More(all, keys, total) => CollectedFrom(fetch, page + 1, all, keys, total)
  }

  function Collected(fetch: Source): Result<Capture, Stop> { CollectedFrom(fetch, 1, [], {}, 0) }

  /** The loop over one page's items. */
  method ScanPage(pageItems: seq<Item>, before: set<string>) returns (r: Result<set<string>, Stop>)
    ensures r == Scanned(pageItems, before)
  {
    var seen := before;
    for i := 0 to |pageItems|
      invariant Scanned(pageItems[..i], before) == Ok(seen)
    {
      assert pageItems[..i + 1][..i] == pageItems[..i];
      if !HasKey(pageItems[i]) {
        ScanStops(pageItems, i + 1, before);
        return Err(ResponseInvalid);
      }
      var key := KeyOf(pageItems[i]);
      if key in seen {
        ScanStops(pageItems, i + 1, before);
        return Err(PaginationDuplicate);
      }
      seen := seen + {key};
    }
    assert pageItems[..|pageItems|] == pageItems;
    r := Ok(seen);
  }

  method TakePage(response: Response, page: nat, items: seq<Item>, seen: set<string>, bytes: nat) returns (r: Progress)
    ensures r == ReadPage(response, page, items, seen, bytes)
  {
    if response.Malformed? { return Failed(ResponseInvalid); }
    var pageItems := response.items;
    if |pageItems| > PAGE_SIZE { return Failed(PageOversized); }
    var total := bytes + response.size;
    if total > MAX_RESPONSE_BYTES { return Failed(ResponseTooLarge); }
    var scanned := ScanPage(pageItems, seen);
    if scanned.Err? { return Failed(scanned.error); }
    var all := items + pageItems;
    if |all| > MAX_ITEMS { return Failed(ItemLimit); }
    if |pageItems| < PAGE_SIZE {
      return Done(Capture(all, if page == 1 && pageItems == [] then EmptyFirstPage else ShortFinalPage, page, total));
    }
    r := More(all, scanned.value, total);
  }

  method CollectLibraryPages(fetch: Source) returns (r: Result<Capture, Stop>)
    ensures r == Collected(fetch)
  {
    var items: seq<Item>, seen: set<string>, bytes: nat := [], {}, 0;
    for page := 1 to MAX_PAGES + 1
      invariant Collected(fetch) == CollectedFrom(fetch, page, items, seen, bytes)
    {
      var progress := TakePage(fetch(page), page, items, seen, bytes);
      match progress
      case Failed(stop) => return Err(stop);
      case Done(capture) => return Ok(capture);
      case More(all, keys, total) => items, seen, bytes := all, keys, total;
    }
    r := Err(PageLimit);
  }

  /** The first refused item decides the scan. */
  lemma {:induction false} ScanStops(items: seq<Item>, i: nat, seen: set<string>)
    requires i <= |items| && Scanned(items[..i], seen).Err?
    ensures Scanned(items, seen) == Scanned(items[..i], seen)
    decreases |items| - i
  {
    if i == |items| {
      assert items[..i] == items;
    } else {
      assert items[..i + 1][..i] == items[..i];
      ScanStops(items, i + 1, seen);
    }
  }

  // ---- What a complete capture is -------------------------------------------

  predicate AllKeyed(items: seq<Item>) { forall i :: 0 <= i < |items| ==> HasKey(items[i]) }

  predicate Distinct(items: seq<Item>)
    requires AllKeyed(items)
  {
    forall i, j :: 0 <= i < j < |items| ==> KeyOf(items[i]) != KeyOf(items[j])
  }

  function Keys(items: seq<Item>): set<string>
    requires AllKeyed(items)
  {
    set i | 0 <= i < |items| :: KeyOf(items[i])
  }

  lemma {:induction false} ScanExactly(items: seq<Item>, seen: set<string>)
    ensures Scanned(items, seen).Ok? <==> AllKeyed(items) && Distinct(items) && Keys(items) !! seen
    ensures Scanned(items, seen).Ok? ==> Scanned(items, seen).value == seen + Keys(items)
    ensures Scanned(items, seen).Err? ==> Scanned(items, seen).error in {ResponseInvalid, PaginationDuplicate}
  {
    if items == [] {
    } else {
      var front, last := items[..|items| - 1], items[|items| - 1];
      ScanExactly(front, seen);
      assert items == front + [last];
      if AllKeyed(items) { KeysOneMore(front, last); }
      if AllKeyed(front) && HasKey(last) { KeysOneMore(front, last); }
    }
  }

  lemma KeysOneMore(front: seq<Item>, last: Item)
    requires AllKeyed(front) && HasKey(last)
    ensures AllKeyed(front + [last]) && Keys(front + [last]) == Keys(front) + {KeyOf(last)}
    ensures Distinct(front + [last]) <==> Distinct(front) && KeyOf(last) !in Keys(front)
  {
    assert Keys([last]) == {KeyOf(last)} by { assert KeyOf([last][0]) == KeyOf(last); }
    KeysAppend(front, [last]);
  }

  lemma KeysAppend(a: seq<Item>, b: seq<Item>)
    ensures AllKeyed(a + b) <==> AllKeyed(a) && AllKeyed(b)
    ensures AllKeyed(a + b) ==> Keys(a + b) == Keys(a) + Keys(b)
    ensures AllKeyed(a + b) ==> (Distinct(a + b) <==> Distinct(a) && Distinct(b) && Keys(a) !! Keys(b))
  {
    AllKeyedAppend(a, b);
    if AllKeyed(a + b) {
      KeysUnion(a, b);
      if Distinct(a) && Distinct(b) && Keys(a) !! Keys(b) { DistinctWhenApart(a, b); }
      if Distinct(a + b) { ApartWhenDistinct(a, b); }
    }
  }

  lemma AllKeyedAppend(a: seq<Item>, b: seq<Item>)
    ensures AllKeyed(a + b) <==> AllKeyed(a) && AllKeyed(b)
  {
    var all := a + b;
    assert forall i :: 0 <= i < |a| ==> all[i] == a[i];
    assert forall i :: 0 <= i < |b| ==> all[|a| + i] == b[i];
    if AllKeyed(all) {
      forall i | 0 <= i < |b| ensures HasKey(b[i]) { assert HasKey(all[|a| + i]); }
    }
  }

  lemma DistinctWhenApart(a: seq<Item>, b: seq<Item>)
    requires AllKeyed(a) && AllKeyed(b) && AllKeyed(a + b)
    requires Distinct(a) && Distinct(b) && Keys(a) !! Keys(b)
    ensures Distinct(a + b)
  {
    var all := a + b;
    forall i, j | 0 <= i < j < |all| ensures KeyOf(all[i]) != KeyOf(all[j]) {
      if i < |a| <= j { assert KeyOf(a[i]) in Keys(a) && KeyOf(b[j - |a|]) in Keys(b); }
      else if |a| <= i { assert all[i] == b[i - |a|] && all[j] == b[j - |a|]; }
    }
  }

  lemma ApartWhenDistinct(a: seq<Item>, b: seq<Item>)
    requires AllKeyed(a) && AllKeyed(b) && AllKeyed(a + b) && Distinct(a + b)
    ensures Distinct(a) && Distinct(b) && Keys(a) !! Keys(b)
  {
    var all := a + b;
    forall i, j | 0 <= i < j < |a| ensures KeyOf(a[i]) != KeyOf(a[j]) { assert KeyOf(all[i]) != KeyOf(all[j]); }
    forall i, j | 0 <= i < j < |b| ensures KeyOf(b[i]) != KeyOf(b[j]) {
      assert KeyOf(all[|a| + i]) != KeyOf(all[|a| + j]);
    }
    forall i, j | 0 <= i < |a| && 0 <= j < |b| ensures KeyOf(a[i]) != KeyOf(b[j]) {
      assert KeyOf(all[i]) != KeyOf(all[|a| + j]);
    }
  }

  lemma KeysUnion(a: seq<Item>, b: seq<Item>)
    requires AllKeyed(a) && AllKeyed(b) && AllKeyed(a + b)
    ensures Keys(a + b) == Keys(a) + Keys(b)
  {
    var all := a + b;
    forall k | k in Keys(a) + Keys(b) ensures k in Keys(all) {
      if k in Keys(a) {
        var i :| 0 <= i < |a| && k == KeyOf(a[i]);
        assert all[i] == a[i];
      } else {
        var i :| 0 <= i < |b| && k == KeyOf(b[i]);
        assert all[|a| + i] == b[i];
      }
    }
  }

  /** Pages 1 to k, in order. */
  function Concatenated(fetch: Source, k: nat): seq<Item> {
    if k == 0 || fetch(k).Malformed? then [] else Concatenated(fetch, k - 1) + fetch(k).items
  }

  function TotalBytes(fetch: Source, k: nat): nat {
    if k == 0 then 0 else TotalBytes(fetch, k - 1) + fetch(k).size
  }

  ghost predicate FullPages(fetch: Source, k: int) {
    forall p :: 1 <= p <= k ==> fetch(p).Response? && |fetch(p).items| == PAGE_SIZE
  }

  /** The evidence a success claims: full pages, then a short one, no item repeated. */
  ghost predicate CompleteAt(fetch: Source, k: nat) {
    && 1 <= k <= MAX_PAGES
    && FullPages(fetch, k - 1)
    && fetch(k).Response? && |fetch(k).items| < PAGE_SIZE
    && AllKeyed(Concatenated(fetch, k)) && Distinct(Concatenated(fetch, k))
    && TotalBytes(fetch, k) <= MAX_RESPONSE_BYTES
  }

  ghost predicate GoodPrefix(fetch: Source, k: nat) {
    && FullPages(fetch, k)
    && AllKeyed(Concatenated(fetch, k)) && Distinct(Concatenated(fetch, k))
    && TotalBytes(fetch, k) <= MAX_RESPONSE_BYTES
  }

  lemma {:induction false} FullPagesLength(fetch: Source, k: nat)
    requires FullPages(fetch, k)
    ensures |Concatenated(fetch, k)| == k * PAGE_SIZE
  {
    if k == 0 {
    } else {
      FullPagesLength(fetch, k - 1);
    }
  }

  lemma {:induction false} TotalBytesGrow(fetch: Source, j: nat, k: nat)
    requires j <= k
    ensures TotalBytes(fetch, j) <= TotalBytes(fetch, k)
  {
    if j == k {
    } else {
      TotalBytesGrow(fetch, j, k - 1);
    }
  }

  /** A complete capture has good pages all the way. */
  lemma {:induction false} CompletePrefix(fetch: Source, j: nat, k: nat)
    requires j < k && CompleteAt(fetch, k)
    ensures GoodPrefix(fetch, j)
  {
    TotalBytesGrow(fetch, j, k);
    PrefixOfConcatenated(fetch, j, k);
  }

  lemma {:induction false} PrefixOfConcatenated(fetch: Source, j: nat, k: nat)
    requires j <= k && FullPages(fetch, k - 1) && (k > 0 ==> fetch(k).Response?)
    requires AllKeyed(Concatenated(fetch, k)) && Distinct(Concatenated(fetch, k))
    ensures AllKeyed(Concatenated(fetch, j)) && Distinct(Concatenated(fetch, j))
  {
    if j == k {
    } else {
      KeysAppend(Concatenated(fetch, k - 1), fetch(k).items);
      PrefixOfConcatenated(fetch, j, k - 1);
    }
  }

  /** The loop as it enters a page, everything before being in order. */
  ghost function AtPage(fetch: Source, page: nat): Result<Capture, Stop>
    requires 1 <= page && AllKeyed(Concatenated(fetch, page - 1))
  {
    var before := Concatenated(fetch, page - 1);
    CollectedFrom(fetch, page, before, Keys(before), TotalBytes(fetch, page - 1))
  }

  /** A page is read as its part of the whole is in order and short, in order and full, or not. */
  lemma PageRead(fetch: Source, page: nat)
    requires 1 <= page <= MAX_PAGES && GoodPrefix(fetch, page - 1) && fetch(page).Response?
    ensures
      var before, all := Concatenated(fetch, page - 1), Concatenated(fetch, page);
      var fits := AllKeyed(all) && Distinct(all) && TotalBytes(fetch, page) <= MAX_RESPONSE_BYTES;
      var r := ReadPage(fetch(page), page, before, Keys(before), TotalBytes(fetch, page - 1));
      && (fits && |fetch(page).items| < PAGE_SIZE ==>
            r == Done(Capture(all, if page == 1 && fetch(page).items == [] then EmptyFirstPage else ShortFinalPage, page, TotalBytes(fetch, page))))
      && (fits && |fetch(page).items| == PAGE_SIZE ==> r == More(all, Keys(all), TotalBytes(fetch, page)))
      && (!fits || |fetch(page).items| > PAGE_SIZE ==> r.Failed? && r != Failed(ItemLimit))
  {
    FullPagesLength(fetch, page - 1);
    ResponseRead(fetch(page), page, Concatenated(fetch, page - 1), TotalBytes(fetch, page - 1));
  }

  lemma ResponseRead(response: Response, page: nat, before: seq<Item>, bytes: nat)
    requires response.Response? && AllKeyed(before) && Distinct(before) && |before| <= MAX_ITEMS - PAGE_SIZE
    ensures
      var all, total := before + response.items, bytes + response.size;
      var fits := AllKeyed(all) && Distinct(all) && total <= MAX_RESPONSE_BYTES;
      var r := ReadPage(response, page, before, Keys(before), bytes);
      && (fits && |response.items| < PAGE_SIZE ==>
            r == Done(Capture(all, if page == 1 && response.items == [] then EmptyFirstPage else ShortFinalPage, page, total)))
      && (fits && |response.items| == PAGE_SIZE ==> r == More(all, Keys(all), total))
      && (!fits || |response.items| > PAGE_SIZE ==> r.Failed? && r != Failed(ItemLimit))
  {
    ScanContinues(before, response.items);
  }

  /** Scanning one page after the earlier ones is scanning all of them. */
  lemma ScanContinues(before: seq<Item>, pageItems: seq<Item>)
    requires AllKeyed(before) && Distinct(before)
    ensures var r, all := Scanned(pageItems, Keys(before)), before + pageItems;
      && (r.Ok? <==> AllKeyed(all) && Distinct(all))
      && (r.Ok? ==> r.value == Keys(all))
      && (r.Err? ==> r.error != ItemLimit)
  {
    KeysAppend(before, pageItems);
    ScanExactly(pageItems, Keys(before));
  }

  /** One page: it completes the capture, is one of many, or stops it. */
  lemma OnePage(fetch: Source, page: nat)
    requires 1 <= page <= MAX_PAGES && GoodPrefix(fetch, page - 1)
    ensures CompleteAt(fetch, page) ==> AtPage(fetch, page).Ok? && CaptureOf(fetch, page, AtPage(fetch, page).value)
    ensures GoodPrefix(fetch, page) ==> AtPage(fetch, page) == AtPage(fetch, page + 1)
    ensures !CompleteAt(fetch, page) && !GoodPrefix(fetch, page) ==>
      AtPage(fetch, page).Err? && AtPage(fetch, page) != Err(ItemLimit)
  {
    if fetch(page).Response? {
      PageRead(fetch, page);
      GoodPrefixGrows(fetch, page);
      if CompleteAt(fetch, page) { FullPagesLength(fetch, page - 1); }
    }
  }

  lemma GoodPrefixGrows(fetch: Source, page: nat)
    requires 1 <= page <= MAX_PAGES && GoodPrefix(fetch, page - 1) && fetch(page).Response?
    ensures var ok := AllKeyed(Concatenated(fetch, page)) && Distinct(Concatenated(fetch, page))
                      && TotalBytes(fetch, page) <= MAX_RESPONSE_BYTES;
      && (GoodPrefix(fetch, page) <==> ok && |fetch(page).items| == PAGE_SIZE)
      && (CompleteAt(fetch, page) <==> ok && |fetch(page).items| < PAGE_SIZE)
  {
    assert FullPages(fetch, page) <==> FullPages(fetch, page - 1) && |fetch(page).items| == PAGE_SIZE;
  }

  lemma {:induction false} CollectExactly(fetch: Source, page: nat)
    requires 1 <= page <= MAX_PAGES + 1 && GoodPrefix(fetch, page - 1)
    ensures var r := AtPage(fetch, page);
      && (r.Ok? <==> exists k :: page <= k && CompleteAt(fetch, k))
      && (r.Ok? ==> CaptureOf(fetch, page, r.value))
      && r != Err(ItemLimit)
    decreases MAX_PAGES + 1 - page
  {
    if page > MAX_PAGES {
    } else {
      OnePage(fetch, page);
      forall k | page < k && CompleteAt(fetch, k) ensures GoodPrefix(fetch, page) {
        CompletePrefix(fetch, page, k);
      }
      if GoodPrefix(fetch, page) {
        CollectExactly(fetch, page + 1);
        assert !CompleteAt(fetch, page);
      }
    }
  }

  ghost predicate CaptureOf(fetch: Source, page: nat, c: Capture) {
    && page <= c.pagesRead
    && CompleteAt(fetch, c.pagesRead)
    && c.items == Concatenated(fetch, c.pagesRead)
    && c.bytes == TotalBytes(fetch, c.pagesRead)
    && (c.basis == EmptyFirstPage <==> c.items == [])
  }

  /** For any source: the collection succeeds exactly when some page within the cap completes
      it, and then returns those pages in order. */
  lemma CollectionSucceedsExactly(fetch: Source)
    ensures Collected(fetch).Ok? <==> exists k :: CompleteAt(fetch, k)
    ensures Collected(fetch).Ok? ==> CaptureOf(fetch, 1, Collected(fetch).value)
  {
    assert Keys(Concatenated(fetch, 0)) == {};
    CollectExactly(fetch, 1);
  }

  /** Twenty pages of at most a thousand items never exceed the item limit. */
  lemma ItemLimitIsUnreachable(fetch: Source)
    ensures Collected(fetch) != Err(ItemLimit)
  {
    assert Keys(Concatenated(fetch, 0)) == {};
    CollectExactly(fetch, 1);
  }

  // ---- Why a collection stops -----------------------------------------------------

  /** The first item of a page that has no identifier, or one seen before. */
  ghost predicate FirstBadItem(items: seq<Item>, seen: set<string>, i: nat) {
    && i < |items| && AllKeyed(items[..i]) && Distinct(items[..i]) && Keys(items[..i]) !! seen
    && (HasKey(items[i]) ==> KeyOf(items[i]) in seen || KeyOf(items[i]) in Keys(items[..i]))
  }

  lemma {:induction false} ScanStopsAt(items: seq<Item>, seen: set<string>) returns (i: nat)
    requires Scanned(items, seen).Err?
    ensures FirstBadItem(items, seen, i)
    ensures Scanned(items, seen) == Err(if HasKey(items[i]) then PaginationDuplicate else ResponseInvalid)
  {
    var n := |items| - 1;
    if Scanned(items[..n], seen).Err? {
      i := ScanStopsAt(items[..n], seen);
      assert items[..n][..i] == items[..i] && items[..n][i] == items[i];
    } else {
      i := n;
      ScanExactly(items[..n], seen);
    }
  }

  /** Why a page is refused: it is no list of items, or too long, or one byte too many, or has an
      item without an identifier or with one seen before. */
  ghost predicate Refuses(response: Response, seen: set<string>, bytes: nat, stop: Stop) {
    if response.Malformed? then stop == ResponseInvalid
    else if |response.items| > 1000 then stop == PageOversized
    else if bytes + response.size > 26214400 then stop == ResponseTooLarge
    else exists i: nat :: FirstBadItem(response.items, seen, i)
           && stop == if HasKey(response.items[i]) then PaginationDuplicate else ResponseInvalid
  }

  lemma RefusedPage(response: Response, page: nat, items: seq<Item>, seen: set<string>, bytes: nat)
    requires ReadPage(response, page, items, seen, bytes).Failed?
    requires ReadPage(response, page, items, seen, bytes) != Failed(ItemLimit)
    ensures Refuses(response, seen, bytes, ReadPage(response, page, items, seen, bytes).stop)
  {
    if response.Response? && Scanned(response.items, seen).Err? {
      var i := ScanStopsAt(response.items, seen);
    }
  }

  /** The page at which a collection stops: everything before it was in order, and it is refused. */
  ghost predicate StopsAt(fetch: Source, k: nat, stop: Stop) {
    && 1 <= k <= 20 && GoodPrefix(fetch, k - 1)
    && Refuses(fetch(k), Keys(Concatenated(fetch, k - 1)), TotalBytes(fetch, k - 1), stop)
  }

  lemma {:induction false} StopComesFromAPage(fetch: Source, page: nat)
    requires 1 <= page <= MAX_PAGES + 1 && GoodPrefix(fetch, page - 1) && AtPage(fetch, page).Err?
    ensures
      var stop := AtPage(fetch, page).error;
      (exists k: nat :: page <= k && StopsAt(fetch, k, stop)) || (stop == PageLimit && GoodPrefix(fetch, 20))
    decreases MAX_PAGES + 1 - page
  {
    if page > MAX_PAGES {
    } else if GoodPrefix(fetch, page) {
      OnePage(fetch, page);
      StopComesFromAPage(fetch, page + 1);
    } else {
      OnePage(fetch, page);
      var before := Concatenated(fetch, page - 1);
      var read := ReadPage(fetch(page), page, before, Keys(before), TotalBytes(fetch, page - 1));
      BadPageIsRefused(fetch, page);
      RefusedPage(fetch(page), page, before, Keys(before), TotalBytes(fetch, page - 1));
      assert StopsAt(fetch, page, read.stop);
    }
  }

  lemma BadPageIsRefused(fetch: Source, page: nat)
    requires 1 <= page <= MAX_PAGES && GoodPrefix(fetch, page - 1) && !GoodPrefix(fetch, page) && AtPage(fetch, page).Err?
    ensures
      var before := Concatenated(fetch, page - 1);
      var read := ReadPage(fetch(page), page, before, Keys(before), TotalBytes(fetch, page - 1));
      read.Failed? && read.stop != ItemLimit && AtPage(fetch, page) == Err(read.stop)
  {
    OnePage(fetch, page);
    if fetch(page).Response? {
      PageRead(fetch, page);
      GoodPrefixGrows(fetch, page);
    }
  }

  /** A collection that stops does so at a page it refuses, for that page's reason, or after twenty
      full pages in order. */
  lemma StopsForAReason(fetch: Source)
    requires Collected(fetch).Err?
    ensures
      var stop := Collected(fetch).error;
      (exists k: nat :: StopsAt(fetch, k, stop)) || (stop == PageLimit && GoodPrefix(fetch, 20))
  {
    assert Keys(Concatenated(fetch, 0)) == {};
    StopComesFromAPage(fetch, 1);
  }

  // ---- A stable source ---------------------------------------------------------

  function Min(a: nat, b: nat): nat { if a < b then a else b }

  /** Page p of a library that does not change while it is read. */
  ghost predicate Serves(fetch: Source, all: seq<Item>) {
    forall p :: p >= 1 ==>
      && fetch(p).Response?
      && fetch(p).items == all[Min((p - 1) * PAGE_SIZE, |all|)..Min(p * PAGE_SIZE, |all|)]
  }

  lemma {:induction false} ServedPrefix(fetch: Source, all: seq<Item>, k: nat)
    requires Serves(fetch, all)
    ensures Concatenated(fetch, k) == all[..Min(k * PAGE_SIZE, |all|)]
  {
    if k == 0 {
    } else {
      ServedPrefix(fetch, all, k - 1);
      assert fetch(k).Response?;
    }
  }

  lemma ShortPageExactly(fetch: Source, all: seq<Item>, k: nat)
    requires Serves(fetch, all) && k >= 1
    ensures FullPages(fetch, k - 1) && |fetch(k).items| < PAGE_SIZE <==> k == |all| / PAGE_SIZE + 1
  {
    var n := |all|;
    if k == n / PAGE_SIZE + 1 {
      forall p | 1 <= p <= k - 1 ensures fetch(p).Response? && |fetch(p).items| == PAGE_SIZE {
        assert p * PAGE_SIZE <= (n / PAGE_SIZE) * PAGE_SIZE <= n;
      }
    } else if k > n / PAGE_SIZE + 1 {
      var p := n / PAGE_SIZE + 1;
      assert p * PAGE_SIZE > n;
      assert |fetch(p).items| < PAGE_SIZE;
    } else {
      assert k * PAGE_SIZE <= (n / PAGE_SIZE) * PAGE_SIZE <= n;
    }
  }

  /** The pages of n items, against the caps. */
  lemma PagesOf(n: nat, pages: nat)
    requires pages == n / PAGE_SIZE + 1
    ensures pages >= 1 && Min(pages * PAGE_SIZE, n) == n
    ensures pages <= MAX_PAGES <==> n < MAX_ITEMS
  {
  }

  lemma StableCompletesAt(fetch: Source, all: seq<Item>, k: nat)
    requires Serves(fetch, all) && AllKeyed(all) && Distinct(all) && k >= 1
    ensures CompleteAt(fetch, k) <==>
      k == |all| / PAGE_SIZE + 1 && k <= MAX_PAGES && TotalBytes(fetch, k) <= MAX_RESPONSE_BYTES
  {
    ShortPageExactly(fetch, all, k);
    assert AllKeyed(Concatenated(fetch, k)) && Distinct(Concatenated(fetch, k)) by { ServedPrefix(fetch, all, k); }
    assert fetch(k).Response?;
  }

  /** A stable library of n distinct items is captured exactly when n < 20000 and its pages
      fit the byte limit; the capture is the library in order, from n/1000 + 1 pages. */
  lemma StableLibraryIsCapturedExactly(fetch: Source, all: seq<Item>)
    requires Serves(fetch, all) && AllKeyed(all) && Distinct(all)
    ensures var r, pages := Collected(fetch), |all| / PAGE_SIZE + 1;
      && (r.Ok? <==> |all| < MAX_ITEMS && TotalBytes(fetch, pages) <= MAX_RESPONSE_BYTES)
      && (r.Ok? ==> r.value.items == all && r.value.pagesRead == pages)
      && (r.Ok? ==> (r.value.basis == EmptyFirstPage <==> all == []))
  {
    CollectionSucceedsExactly(fetch);
    var pages := |all| / PAGE_SIZE + 1;
    PagesOf(|all|, pages);
    forall k: nat | CompleteAt(fetch, k) ensures k == pages { StableCompletesAt(fetch, all, k); }
    StableCompletesAt(fetch, all, pages);
    ServedPrefix(fetch, all, pages);
    assert all[..|all|] == all;
  }

  lemma LargeLibraryFillsPages(fetch: Source, all: seq<Item>, k: nat)
    requires Serves(fetch, all) && |all| >= MAX_ITEMS && k <= MAX_PAGES
    ensures FullPages(fetch, k)
  {
    forall p | 1 <= p <= k ensures fetch(p).Response? && |fetch(p).items| == PAGE_SIZE {
      assert p * PAGE_SIZE <= MAX_PAGES * PAGE_SIZE <= |all|;
    }
  }

  lemma LargeLibraryPrefix(fetch: Source, all: seq<Item>, k: nat)
    requires Serves(fetch, all) && AllKeyed(all) && Distinct(all) && |all| >= MAX_ITEMS
    requires TotalBytes(fetch, MAX_PAGES) <= MAX_RESPONSE_BYTES && k <= MAX_PAGES
    ensures GoodPrefix(fetch, k)
  {
    ServedPrefix(fetch, all, k);
    TotalBytesGrow(fetch, k, MAX_PAGES);
    LargeLibraryFillsPages(fetch, all, k);
  }

  /** A stable library too large to capture stops at the page cap when its bytes fit. */
  lemma {:induction false} LargeLibraryStopsAtThePageCap(fetch: Source, all: seq<Item>, page: nat)
    requires Serves(fetch, all) && AllKeyed(all) && Distinct(all) && |all| >= MAX_ITEMS
    requires TotalBytes(fetch, MAX_PAGES) <= MAX_RESPONSE_BYTES
    requires 1 <= page <= MAX_PAGES + 1
    ensures GoodPrefix(fetch, page - 1) && AtPage(fetch, page) == Err(PageLimit)
    decreases MAX_PAGES + 1 - page
  {
    LargeLibraryPrefix(fetch, all, page - 1);
    if page > MAX_PAGES {
      BeyondTheCap(fetch, page);
    } else {
      LargeLibraryStopsAtThePageCap(fetch, all, page + 1);
      OnePage(fetch, page);
    }
  }

  lemma BeyondTheCap(fetch: Source, page: nat)
    requires page > MAX_PAGES && AllKeyed(Concatenated(fetch, page - 1))
    ensures AtPage(fetch, page) == Err(PageLimit)
  {
  }

  /** The whole run on such a library. */
  lemma LargeLibraryIsRefused(fetch: Source, all: seq<Item>)
    requires Serves(fetch, all) && AllKeyed(all) && Distinct(all) && |all| >= MAX_ITEMS
    requires TotalBytes(fetch, MAX_PAGES) <= MAX_RESPONSE_BYTES
    ensures Collected(fetch) == Err(PageLimit)
  {
    LargeLibraryStopsAtThePageCap(fetch, all, 1);
    assert Keys(Concatenated(fetch, 0)) == {};
  }
}
