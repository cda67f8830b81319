/** The order of library rows: `sortRows` of ui/js/private-store.js and `sortLibrary` of
    src/core/library.js. Writing a number as text is an arbitrary function. */
module Ordering {
  import opened Texts

  type Show = real -> string

  /** What a row holds in a sortable field. */
  datatype Value = Unknown | Number(n: real) | Text(s: string)

  datatype Row = Row(
    bookId: string, title: Value, authors: seq<string>, narrators: seq<string>, genres: seq<string>,
    authorIds: seq<string>, narratorIds: seq<string>, series: Value, seriesId: Option<string>,
    seriesHeading: Option<string>, seriesPosition: Value, status: string, statusHeading: string,
    facts: map<string, Value>)

  datatype SortField = ByTitle | ByAuthor | ByNarrator | ByGenre | BySeries | ByStatus | BySeriesPosition | ByFact(name: string)

  function StatusOrder(status: string): Value {
    if status == "in-progress" then Number(0.0)
    else if status == "not-started" then Number(1.0)
    else if status == "want-to-listen" then Number(2.0)
    else if status == "completed" then Number(3.0)
    else if status == "abandoned" then Number(4.0)
    else if status == "unknown" then Number(5.0)
    else Unknown
  }

  function FirstOf(names: seq<string>): Value { if names == [] then Unknown else Text(names[0]) }

  function SortValue(row: Row, field: SortField): Value {
    match field
    case ByTitle => row.title
    case ByAuthor => FirstOf(row.authors)
    case ByNarrator => FirstOf(row.narrators)
    case ByGenre => FirstOf(row.genres)
    case BySeries => row.series
    case ByStatus => StatusOrder(row.status)
    case BySeriesPosition => row.seriesPosition
    case ByFact(name) => if name in row.facts then row.facts[name] else Unknown
  }

  // ---- The comparators ---------------------------------------------------------

  function Sign(x: real): int { if x < 0.0 then -1 else if x > 0.0 then 1 else 0 }

  function AsString(v: Value, show: Show): string {
    match v
    case Unknown => ""
    case Number(n) => show(n)
    case Text(s) => s
  }

  /** The private runtime counts an empty text as unknown, the core view does not. */
  predicate IsBlank(v: Value, emptyIsUnknown: bool) { v.Unknown? || (emptyIsUnknown && v == Text("")) }

  function CompareValues(a: Value, b: Value, descending: bool, emptyIsUnknown: bool, show: Show): int {
    var sign := if descending then -1 else 1;
    if IsBlank(a, emptyIsUnknown) && IsBlank(b, emptyIsUnknown) then 0
    else if IsBlank(a, emptyIsUnknown) then 1
    else if IsBlank(b, emptyIsUnknown) then -1
    else if a.Number? && b.Number? then Sign(a.n - b.n) * sign
    else CompareText(AsString(a, show), AsString(b, show)) * sign
  }

  function Lexicographic(first: int, second: int, third: int): int {
    if first != 0 then first else if second != 0 then second else third
  }

  datatype Session = Session(field: SortField, descending: bool)

  /** Of `sortRows`: ties go by series position, always ascending. */
  function CompareRows(left: Row, right: Row, s: Session, show: Show): int {
    Lexicographic(
      CompareValues(SortValue(left, s.field), SortValue(right, s.field), s.descending, true, show),
      if s.field.BySeries? then 0 else CompareValues(left.seriesPosition, right.seriesPosition, false, true, show),
      CompareText(left.bookId, right.bookId))
  }

  /** Of `sortLibrary`: ties go by a chosen secondary field, in the same direction. */
  function CompareLibrary(left: Row, right: Row, s: Session, secondary: Option<SortField>, show: Show): int {
    Lexicographic(
      CompareValues(SortValue(left, s.field), SortValue(right, s.field), s.descending, false, show),
      if secondary.None? || secondary == Some(s.field) then 0
      else CompareValues(SortValue(left, secondary.value), SortValue(right, secondary.value), s.descending, false, show),
      CompareText(left.bookId, right.bookId))
  }

  // ---- Sorting -------------------------------------------------------------------

  function Insert<T>(x: T, sorted: seq<T>, cmp: (T, T) -> int): (r: seq<T>)
    ensures |r| == |sorted| + 1
  {
    if sorted == [] then [x]
    else if cmp(x, sorted[0]) <= 0 then [x] + sorted
    else [sorted[0]] + Insert(x, sorted[1..], cmp)
  }

  function SortBy<T>(items: seq<T>, cmp: (T, T) -> int): (r: seq<T>)
    ensures |r| == |items|
  {
    if items == [] then [] else Insert(items[0], SortBy(items[1..], cmp), cmp)
  }

  /** What a total order says of three elements. */
  ghost predicate Ordered<T>(cmp: (T, T) -> int, a: T, b: T, c: T) {
    && cmp(a, b) == -cmp(b, a)
    && (cmp(a, b) == 0 ==> a == b)
    && (cmp(a, b) <= 0 && cmp(b, c) <= 0 ==> cmp(a, c) <= 0)
  }

  ghost predicate TotalOn<T(!new)>(items: seq<T>, cmp: (T, T) -> int) {
    forall a, b, c {:trigger Ordered(cmp, a, b, c)} :: a in items && b in items && c in items ==> Ordered(cmp, a, b, c)
  }

  ghost predicate SortedBy<T>(items: seq<T>, cmp: (T, T) -> int) {
    forall i, j :: 0 <= i < j < |items| ==> cmp(items[i], items[j]) <= 0
  }

  lemma {:induction false} InsertKeepsElements<T>(x: T, sorted: seq<T>, cmp: (T, T) -> int)
    ensures multiset(Insert(x, sorted, cmp)) == multiset{x} + multiset(sorted)
  {
    if sorted == [] {
    } else {
      assert sorted == [sorted[0]] + sorted[1..];
      InsertKeepsElements(x, sorted[1..], cmp);
    }
  }

  lemma {:induction false} SortKeepsElements<T>(items: seq<T>, cmp: (T, T) -> int)
    ensures multiset(SortBy(items, cmp)) == multiset(items)
  {
    if items == [] {
    } else {
      assert items == [items[0]] + items[1..];
      SortKeepsElements(items[1..], cmp);
      InsertKeepsElements(items[0], SortBy(items[1..], cmp), cmp);
    }
  }

  lemma MultisetMembers<T>(a: seq<T>, b: seq<T>, x: T)
    requires multiset(a) == multiset(b)
    ensures x in a <==> x in b
  {
    assert x in a <==> x in multiset(a);
    assert x in b <==> x in multiset(b);
  }

  lemma PrependLeast<T>(x: T, sorted: seq<T>, cmp: (T, T) -> int)
    requires SortedBy(sorted, cmp) && forall k :: 0 <= k < |sorted| ==> cmp(x, sorted[k]) <= 0
    ensures SortedBy([x] + sorted, cmp)
  {
    var r := [x] + sorted;
    assert forall k :: 0 < k < |r| ==> r[k] == sorted[k - 1];
  }

  lemma {:induction false} InsertSorts<T(!new)>(x: T, sorted: seq<T>, cmp: (T, T) -> int, items: seq<T>)
    requires TotalOn(items, cmp) && x in items && (forall y :: y in sorted ==> y in items) && SortedBy(sorted, cmp)
    ensures SortedBy(Insert(x, sorted, cmp), cmp)
  {
    if sorted == [] {
    } else {
      var tail := sorted[1..];
      if cmp(x, sorted[0]) <= 0 {
        forall k | 0 <= k < |sorted| ensures cmp(x, sorted[k]) <= 0 {
          FirstIsLeast(sorted, cmp, sorted[k], items);
          assert Ordered(cmp, x, sorted[0], sorted[k]);
        }
        PrependLeast(x, sorted, cmp);
      } else {
        var r := Insert(x, tail, cmp);
        InsertSorts(x, tail, cmp, items);
        InsertKeepsElements(x, tail, cmp);
        forall k | 0 <= k < |r| ensures cmp(sorted[0], r[k]) <= 0 {
          assert r[k] in multiset(r);
          assert r[k] == x || r[k] in multiset(tail);
          if r[k] in tail { FirstIsLeast(sorted, cmp, r[k], items); }
          assert Ordered(cmp, x, sorted[0], x);
        }
        PrependLeast(sorted[0], r, cmp);
      }
    }
  }

  lemma {:induction false} SortSorts<T(!new)>(items: seq<T>, cmp: (T, T) -> int, all: seq<T>)
    requires TotalOn(all, cmp) && forall y :: y in items ==> y in all
    ensures SortedBy(SortBy(items, cmp), cmp)
  {
    if items == [] {
    } else {
      var rest := SortBy(items[1..], cmp);
      SortSorts(items[1..], cmp, all);
      SortKeepsElements(items[1..], cmp);
      forall y | y in rest ensures y in all { MultisetMembers(rest, items[1..], y); }
      InsertSorts(items[0], rest, cmp, all);
    }
  }

  lemma TailElements<T>(a: seq<T>)
    requires a != []
    ensures multiset(a[1..]) == multiset(a) - multiset{a[0]}
    ensures forall y :: y in a[1..] ==> y in a
  {
    assert a == [a[0]] + a[1..];
  }

  lemma TailIsSorted<T>(a: seq<T>, cmp: (T, T) -> int)
    requires a != [] && SortedBy(a, cmp)
    ensures SortedBy(a[1..], cmp)
  {
    var t := a[1..];
    assert forall i :: 0 <= i < |t| ==> t[i] == a[i + 1];
  }

  lemma SameFirst<T(!new)>(a: seq<T>, b: seq<T>, cmp: (T, T) -> int, all: seq<T>)
    requires TotalOn(all, cmp) && forall y :: y in a ==> y in all
    requires a != [] && b != [] && multiset(a) == multiset(b) && SortedBy(a, cmp) && SortedBy(b, cmp)
    ensures a[0] == b[0]
  {
    MultisetMembers(a, b, a[0]);
    MultisetMembers(a, b, b[0]);
    FirstIsLeast(a, cmp, b[0], all);
    FirstIsLeast(b, cmp, a[0], all);
    assert Ordered(cmp, a[0], b[0], a[0]);
  }

  /** There is one sorted arrangement, so the sorting algorithm does not matter. */
  lemma {:induction false} SortedArrangementIsUnique<T(!new)>(a: seq<T>, b: seq<T>, cmp: (T, T) -> int, all: seq<T>)
    requires TotalOn(all, cmp) && forall y :: y in a ==> y in all
    requires multiset(a) == multiset(b) && SortedBy(a, cmp) && SortedBy(b, cmp)
    ensures a == b
  {
    SameLength(a, b);
    if a == [] {
    } else {
      SameFirst(a, b, cmp, all);
      SameTail(a, b);
      TailIsSorted(a, cmp);
      TailIsSorted(b, cmp);
      SortedArrangementIsUnique(a[1..], b[1..], cmp, all);
      HeadAndTail(a, b);
    }
  }

  lemma SameLength<T>(a: seq<T>, b: seq<T>)
    requires multiset(a) == multiset(b)
    ensures |a| == |b|
  {
    assert |a| == |multiset(a)| && |b| == |multiset(b)|;
  }

  lemma SameTail<T>(a: seq<T>, b: seq<T>)
    requires a != [] && b != [] && a[0] == b[0] && multiset(a) == multiset(b)
    ensures multiset(a[1..]) == multiset(b[1..])
    ensures forall y :: y in a[1..] ==> y in a
  {
    TailElements(a);
    TailElements(b);
  }

  lemma HeadAndTail<T>(a: seq<T>, b: seq<T>)
    requires a != [] && b != [] && a[0] == b[0] && a[1..] == b[1..]
    ensures a == b
  {
    assert a == [a[0]] + a[1..] && b == [b[0]] + b[1..];
  }

  lemma FirstIsLeast<T(!new)>(a: seq<T>, cmp: (T, T) -> int, x: T, all: seq<T>)
    requires x in a && x in all && TotalOn(all, cmp) && SortedBy(a, cmp)
    ensures cmp(a[0], x) <= 0
  {
    var i :| 0 <= i < |a| && a[i] == x;
    assert Ordered(cmp, x, x, x);
  }

  lemma SortIgnoresInputOrder<T(!new)>(a: seq<T>, b: seq<T>, cmp: (T, T) -> int)
    requires TotalOn(a, cmp) && multiset(a) == multiset(b)
    ensures SortBy(a, cmp) == SortBy(b, cmp)
  {
    forall y | y in b ensures y in a { MultisetMembers(a, b, y); }
    SortSorts(a, cmp, a);
    SortSorts(b, cmp, a);
    SortKeepsElements(a, cmp);
    SortKeepsElements(b, cmp);
    forall y | y in SortBy(a, cmp) ensures y in a { MultisetMembers(SortBy(a, cmp), a, y); }
    SortedArrangementIsUnique(SortBy(a, cmp), SortBy(b, cmp), cmp, a);
  }

  // ---- The comparators are total orders --------------------------------------------

  predicate SameKind(a: Value, b: Value) { !(a.Number? && b.Text?) && !(a.Text? && b.Number?) }

  /** How three comparisons must fit together. */
  ghost predicate Consistent(ab: int, ba: int, bc: int, ac: int) {
    && ab == -ba
    && (ab <= 0 && bc <= 0 ==> ac <= 0)
    && (ab <= 0 && bc <= 0 && (ab < 0 || bc < 0) ==> ac < 0)
  }

  lemma TextsAreConsistent(a: string, b: string, c: string)
    ensures Consistent(CompareText(a, b), CompareText(b, a), CompareText(b, c), CompareText(a, c))
    ensures Consistent(-CompareText(a, b), -CompareText(b, a), -CompareText(b, c), -CompareText(a, c))
  {
    LessTotal(a, b);
    LessTotal(b, c);
    LessTotal(a, c);
    if Less(a, b) && Less(b, c) { LessTransitive(a, b, c); }
    if Less(c, b) && Less(b, a) { LessTransitive(c, b, a); }
  }

  lemma ValuesAreConsistent(a: Value, b: Value, c: Value, descending: bool, empty: bool, show: Show)
    requires SameKind(a, b) && SameKind(b, c) && SameKind(a, c)
    ensures Consistent(CompareValues(a, b, descending, empty, show), CompareValues(b, a, descending, empty, show),
                       CompareValues(b, c, descending, empty, show), CompareValues(a, c, descending, empty, show))
  {
    TextsAreConsistent(AsString(a, show), AsString(b, show), AsString(c, show));
  }

  /** The field holds one kind of value throughout, and ids do not repeat. */
  ghost predicate Sortable(rows: seq<Row>, field: SortField, secondary: Option<SortField>) {
    && (forall a, b :: a in rows && b in rows ==> SameKind(SortValue(a, field), SortValue(b, field)))
    && (secondary.Some? ==> forall a, b :: a in rows && b in rows ==>
          SameKind(SortValue(a, secondary.value), SortValue(b, secondary.value)))
    && (forall a, b :: a in rows && b in rows && a.bookId == b.bookId ==> a == b)
  }

  function RowOrder(s: Session, show: Show): (Row, Row) -> int { (a, b) => CompareRows(a, b, s, show) }

  function LibraryOrder(s: Session, secondary: Option<SortField>, show: Show): (Row, Row) -> int {
    (a, b) => CompareLibrary(a, b, s, secondary, show)
  }

  lemma RowsAreConsistent(a: Row, b: Row, c: Row, s: Session, show: Show)
    requires Sortable([a, b, c], s.field, Some(BySeriesPosition))
    ensures Consistent(CompareRows(a, b, s, show), CompareRows(b, a, s, show), CompareRows(b, c, s, show), CompareRows(a, c, s, show))
    ensures CompareRows(a, b, s, show) == 0 ==> a.bookId == b.bookId
  {
    assert a in [a, b, c] && b in [a, b, c] && c in [a, b, c];
    ValuesAreConsistent(SortValue(a, s.field), SortValue(b, s.field), SortValue(c, s.field), s.descending, true, show);
    KindsOfSecondary(a, b, c, BySeriesPosition);
    ValuesAreConsistent(a.seriesPosition, b.seriesPosition, c.seriesPosition, false, true, show);
    TextsAreConsistent(a.bookId, b.bookId, c.bookId);
  }

  lemma KindsOfSecondary(a: Row, b: Row, c: Row, f: SortField)
    requires forall x, y :: x in [a, b, c] && y in [a, b, c] ==> SameKind(SortValue(x, f), SortValue(y, f))
    ensures SameKind(SortValue(a, f), SortValue(b, f)) && SameKind(SortValue(b, f), SortValue(c, f)) && SameKind(SortValue(a, f), SortValue(c, f))
  {
    assert a in [a, b, c] && b in [a, b, c] && c in [a, b, c];
  }

  lemma LibraryIsConsistent(a: Row, b: Row, c: Row, s: Session, secondary: Option<SortField>, show: Show)
    requires Sortable([a, b, c], s.field, secondary)
    ensures Consistent(CompareLibrary(a, b, s, secondary, show), CompareLibrary(b, a, s, secondary, show),
                       CompareLibrary(b, c, s, secondary, show), CompareLibrary(a, c, s, secondary, show))
    ensures CompareLibrary(a, b, s, secondary, show) == 0 ==> a.bookId == b.bookId
  {
    KindsOfSecondary(a, b, c, s.field);
    ValuesAreConsistent(SortValue(a, s.field), SortValue(b, s.field), SortValue(c, s.field), s.descending, false, show);
    if secondary.Some? {
      var f := secondary.value;
      KindsOfSecondary(a, b, c, f);
      ValuesAreConsistent(SortValue(a, f), SortValue(b, f), SortValue(c, f), s.descending, false, show);
    }
    TextsAreConsistent(a.bookId, b.bookId, c.bookId);
  }

  lemma SortableOfFewer(rows: seq<Row>, some: seq<Row>, field: SortField, secondary: Option<SortField>)
    requires Sortable(rows, field, secondary) && forall x :: x in some ==> x in rows
    ensures Sortable(some, field, secondary)
  {
  }

  /** Both comparators are total orders on rows whose fields hold one kind of value each. */
  lemma RowOrderIsTotal(rows: seq<Row>, s: Session, show: Show)
    requires Sortable(rows, s.field, Some(BySeriesPosition))
    ensures TotalOn(rows, RowOrder(s, show))
  {
    var cmp := RowOrder(s, show);
    forall a, b, c | a in rows && b in rows && c in rows
      ensures Ordered(cmp, a, b, c)
    {
      SortableOfFewer(rows, [a, b, c], s.field, Some(BySeriesPosition));
      RowsAreConsistent(a, b, c, s, show);
    }
  }

  lemma LibraryOrderIsTotal(rows: seq<Row>, s: Session, secondary: Option<SortField>, show: Show)
    requires Sortable(rows, s.field, secondary)
    ensures TotalOn(rows, LibraryOrder(s, secondary, show))
  {
    var cmp := LibraryOrder(s, secondary, show);
    forall a, b, c | a in rows && b in rows && c in rows
      ensures Ordered(cmp, a, b, c)
    {
      SortableOfFewer(rows, [a, b, c], s.field, secondary);
      LibraryIsConsistent(a, b, c, s, secondary, show);
    }
  }

  /** A field that mixed numbers with texts could put three rows in a circle. */
  lemma MixedKindsCanCycle(show: Show)
    requires show(9.0) == "9" && show(10.0) == "10"
    ensures CompareValues(Number(9.0), Number(10.0), false, true, show) < 0
    ensures CompareValues(Number(10.0), Text("1a"), false, true, show) < 0
    ensures CompareValues(Text("1a"), Number(9.0), false, true, show) < 0
  {
    assert "10"[1..] == "0" && "1a"[1..] == "a";
    assert Less("0", "a");
    assert Less("10", "1a");
    assert Less("1a", "9");
  }

  /** Missing never masquerades as lowest or highest, in either direction: a row that follows
      one with an unknown in the sorted field has an unknown there too. */
  lemma UnknownsAreLast(rows: seq<Row>, s: Session, show: Show, i: nat, j: nat)
    requires Sortable(rows, s.field, Some(BySeriesPosition)) && i < j < |rows|
    requires IsBlank(SortValue(SortBy(rows, RowOrder(s, show))[i], s.field), true)
    ensures IsBlank(SortValue(SortBy(rows, RowOrder(s, show))[j], s.field), true)
  {
    RowOrderIsTotal(rows, s, show);
    SortSorts(rows, RowOrder(s, show), rows);
    var sorted := SortBy(rows, RowOrder(s, show));
    assert RowOrder(s, show)(sorted[i], sorted[j]) <= 0;
  }

  lemma LibraryUnknownsAreLast(rows: seq<Row>, s: Session, secondary: Option<SortField>, show: Show, i: nat, j: nat)
    requires Sortable(rows, s.field, secondary) && i < j < |rows|
    requires IsBlank(SortValue(SortBy(rows, LibraryOrder(s, secondary, show))[i], s.field), false)
    ensures IsBlank(SortValue(SortBy(rows, LibraryOrder(s, secondary, show))[j], s.field), false)
  {
    LibraryOrderIsTotal(rows, s, secondary, show);
    SortSorts(rows, LibraryOrder(s, secondary, show), rows);
    var sorted := SortBy(rows, LibraryOrder(s, secondary, show));
    assert LibraryOrder(s, secondary, show)(sorted[i], sorted[j]) <= 0;
  }

  /** What two known values of one kind say about their order. */
  lemma KnownValuesCompare(a: Value, b: Value, descending: bool, empty: bool, show: Show)
    requires !IsBlank(a, empty) && !IsBlank(b, empty) && SameKind(a, b)
    ensures CompareValues(a, b, false, empty, show) <= 0 <==>
      if a.Number? then a.n <= b.n else !Less(b.s, a.s)
    ensures CompareValues(a, b, true, empty, show) == -CompareValues(a, b, false, empty, show)
  {
    if a.Text? { LessTotal(a.s, b.s); }
  }

  /** Of two known values the first does not come after the second. */
  ghost predicate InDirection(a: Value, b: Value, descending: bool) {
    if a.Number? && b.Number? then (if descending then a.n >= b.n else a.n <= b.n)
    else a.Text? && b.Text? && (if descending then !Less(a.s, b.s) else !Less(b.s, a.s))
  }

  lemma PrimaryInDirection(a: Value, b: Value, descending: bool, empty: bool, show: Show)
    requires !IsBlank(a, empty) && !IsBlank(b, empty) && SameKind(a, b)
    requires CompareValues(a, b, descending, empty, show) <= 0
    ensures InDirection(a, b, descending)
  {
    KnownValuesCompare(a, b, descending, empty, show);
    KnownValuesCompare(b, a, descending, empty, show);
    ValuesAreConsistent(a, b, a, false, empty, show);
  }

  /** Sorted rows ascend in the known values of the sorted field, or descend when asked to. */
  lemma KnownsAreInDirection(rows: seq<Row>, s: Session, show: Show, i: nat, j: nat)
    requires Sortable(rows, s.field, Some(BySeriesPosition)) && i < j < |rows|
    ensures
      var sorted := SortBy(rows, RowOrder(s, show));
      var a, b := SortValue(sorted[i], s.field), SortValue(sorted[j], s.field);
      !IsBlank(a, true) && !IsBlank(b, true) ==> InDirection(a, b, s.descending)
  {
    RowOrderIsTotal(rows, s, show);
    SortSorts(rows, RowOrder(s, show), rows);
    var sorted := SortBy(rows, RowOrder(s, show));
    SortedMembers(rows, RowOrder(s, show), i);
    SortedMembers(rows, RowOrder(s, show), j);
    var a, b := SortValue(sorted[i], s.field), SortValue(sorted[j], s.field);
    assert RowOrder(s, show)(sorted[i], sorted[j]) <= 0;
    if !IsBlank(a, true) && !IsBlank(b, true) { PrimaryInDirection(a, b, s.descending, true, show); }
  }

  lemma LibraryKnownsAreInDirection(rows: seq<Row>, s: Session, secondary: Option<SortField>, show: Show, i: nat, j: nat)
    requires Sortable(rows, s.field, secondary) && i < j < |rows|
    ensures
      var sorted := SortBy(rows, LibraryOrder(s, secondary, show));
      var a, b := SortValue(sorted[i], s.field), SortValue(sorted[j], s.field);
      !IsBlank(a, false) && !IsBlank(b, false) ==> InDirection(a, b, s.descending)
  {
    LibraryOrderIsTotal(rows, s, secondary, show);
    SortSorts(rows, LibraryOrder(s, secondary, show), rows);
    var sorted := SortBy(rows, LibraryOrder(s, secondary, show));
    SortedMembers(rows, LibraryOrder(s, secondary, show), i);
    SortedMembers(rows, LibraryOrder(s, secondary, show), j);
    var a, b := SortValue(sorted[i], s.field), SortValue(sorted[j], s.field);
    assert LibraryOrder(s, secondary, show)(sorted[i], sorted[j]) <= 0;
    if !IsBlank(a, false) && !IsBlank(b, false) { PrimaryInDirection(a, b, s.descending, false, show); }
  }

  lemma SortedMembers<T(!new)>(rows: seq<T>, cmp: (T, T) -> int, i: nat)
    requires i < |rows|
    ensures SortBy(rows, cmp)[i] in rows
  {
    SortKeepsElements(rows, cmp);
    MultisetMembers(SortBy(rows, cmp), rows, SortBy(rows, cmp)[i]);
  }

  /** Two rows that tie in the sorted field come by known series positions, ascending, and then
      by id. */
  ghost predicate TieBroken(a: Row, b: Row, field: SortField) {
    SortValue(a, field) == SortValue(b, field) && !IsBlank(a.seriesPosition, true) && !IsBlank(b.seriesPosition, true) ==>
      && InDirection(a.seriesPosition, b.seriesPosition, false)
      && (a.seriesPosition == b.seriesPosition ==> Less(a.bookId, b.bookId) || a.bookId == b.bookId)
  }

  lemma TieIsBroken(a: Row, b: Row, s: Session, show: Show)
    requires CompareRows(a, b, s, show) <= 0 && !s.field.BySeries? && SameKind(a.seriesPosition, b.seriesPosition)
    ensures TieBroken(a, b, s.field)
  {
    if SortValue(a, s.field) == SortValue(b, s.field) && !IsBlank(a.seriesPosition, true) && !IsBlank(b.seriesPosition, true) {
      EqualCompares(SortValue(a, s.field), s.descending, true, show);
      PrimaryInDirection(a.seriesPosition, b.seriesPosition, false, true, show);
      EqualCompares(a.seriesPosition, false, true, show);
      LessTotal(a.bookId, b.bookId);
    }
  }

  lemma SortedPair(rows: seq<Row>, s: Session, show: Show, i: nat, j: nat) returns (a: Row, b: Row)
    requires Sortable(rows, s.field, Some(BySeriesPosition)) && i < j < |rows|
    ensures a == SortBy(rows, RowOrder(s, show))[i] && b == SortBy(rows, RowOrder(s, show))[j]
    ensures CompareRows(a, b, s, show) <= 0
    ensures SameKind(SortValue(a, s.field), SortValue(b, s.field)) && SameKind(a.seriesPosition, b.seriesPosition)
  {
    RowOrderIsTotal(rows, s, show);
    SortSorts(rows, RowOrder(s, show), rows);
    SortedMembers(rows, RowOrder(s, show), i);
    SortedMembers(rows, RowOrder(s, show), j);
    a, b := SortBy(rows, RowOrder(s, show))[i], SortBy(rows, RowOrder(s, show))[j];
    assert RowOrder(s, show)(a, b) <= 0;
    assert SameKind(SortValue(a, BySeriesPosition), SortValue(b, BySeriesPosition));
  }

  /** Whatever the direction. */
  lemma TiesGoBySeriesPosition(rows: seq<Row>, s: Session, show: Show, i: nat, j: nat)
    requires Sortable(rows, s.field, Some(BySeriesPosition)) && i < j < |rows| && !s.field.BySeries?
    ensures TieBroken(SortBy(rows, RowOrder(s, show))[i], SortBy(rows, RowOrder(s, show))[j], s.field)
  {
    var a, b := SortedPair(rows, s, show, i, j);
    TieIsBroken(a, b, s, show);
  }

  lemma EqualCompares(v: Value, descending: bool, empty: bool, show: Show)
    ensures CompareValues(v, v, descending, empty, show) == 0
  {
    LessTotal(AsString(v, show), AsString(v, show));
  }

  /** What each field sorts by: text, the first name of a list, progress from begun to unknown,
      a place in a series, or a fact. */
  lemma FieldsSortBy(row: Row, name: string)
    ensures SortValue(row, ByTitle) == row.title && SortValue(row, BySeries) == row.series
    ensures SortValue(row, BySeriesPosition) == row.seriesPosition
    ensures row.authors != [] ==> SortValue(row, ByAuthor) == Text(row.authors[0])
    ensures row.narrators != [] ==> SortValue(row, ByNarrator) == Text(row.narrators[0])
    ensures row.genres != [] ==> SortValue(row, ByGenre) == Text(row.genres[0])
    ensures row.authors == [] ==> SortValue(row, ByAuthor) == Unknown
    ensures name in row.facts ==> SortValue(row, ByFact(name)) == row.facts[name]
    ensures var order := ["in-progress", "not-started", "want-to-listen", "completed", "abandoned", "unknown"];
      forall i :: 0 <= i < 6 && row.status == order[i] ==> SortValue(row, ByStatus) == Number(i as real)
  {
  }

  /** Neither view depends on the order its rows arrive in. */
  lemma RowsSortAlike(a: seq<Row>, b: seq<Row>, s: Session, show: Show)
    requires Sortable(a, s.field, Some(BySeriesPosition)) && multiset(a) == multiset(b)
    ensures SortBy(a, RowOrder(s, show)) == SortBy(b, RowOrder(s, show))
  {
    RowOrderIsTotal(a, s, show);
    SortIgnoresInputOrder(a, b, RowOrder(s, show));
  }

  lemma LibrarySortsAlike(a: seq<Row>, b: seq<Row>, s: Session, secondary: Option<SortField>, show: Show)
    requires Sortable(a, s.field, secondary) && multiset(a) == multiset(b)
    ensures SortBy(a, LibraryOrder(s, secondary, show)) == SortBy(b, LibraryOrder(s, secondary, show))
  {
    LibraryOrderIsTotal(a, s, secondary, show);
    SortIgnoresInputOrder(a, b, LibraryOrder(s, secondary, show));
  }
}
