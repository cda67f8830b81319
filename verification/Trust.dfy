/** Commercial fields are found and dropped: `findProhibitedKeys` and `stripCommercialFields`
    of src/core/trust.js. Which keys are prohibited is an arbitrary predicate. */
module Trust {
  import opened Texts
  import Feedback

  /** A JSON value; an object lists its own keys in order. */
  datatype Value = Leaf(text: string) | Arr(items: seq<Value>) | Obj(fields: seq<(string, Value)>)

  type Prohibited = string -> bool

  function IndexPath(path: string, i: nat): string { path + "[" + Feedback.Decimal(i) + "]" }
  function KeyPath(path: string, key: string): string { if path != "" then path + "." + key else key }

  // ---- The scan ------------------------------------------------------------------

  function Scan(v: Value, path: string, depth: nat, bad: Prohibited): seq<string>
    decreases depth, 0, 0
  {
    if v.Leaf? || depth == 0 then []
    else if v.Arr? then ScanItems(v.items, path, depth - 1, bad)
    else ScanFields(v.fields, path, depth - 1, bad)
  }

  function ScanItems(items: seq<Value>, path: string, depth: nat, bad: Prohibited): seq<string>
    decreases depth, 1, |items|
  {
    if items == [] then []
    else
      var n := |items| - 1;
      ScanItems(items[..n], path, depth, bad) + Scan(items[n], IndexPath(path, n), depth, bad)
  }

  function ScanFields(fields: seq<(string, Value)>, path: string, depth: nat, bad: Prohibited): seq<string>
    decreases depth, 1, |fields|
  {
    if fields == [] then []
    else
      var (key, child) := fields[|fields| - 1];
      ScanFields(fields[..|fields| - 1], path, depth, bad)
        + (if bad(key) then [KeyPath(path, key)] else [])
        + Scan(child, KeyPath(path, key), depth, bad)
  }

  method FindProhibitedKeys(v: Value, path: string, depth: nat, bad: Prohibited) returns (found: seq<string>)
    ensures found == Scan(v, path, depth, bad)
    decreases depth, 0
  {
    if v.Leaf? || depth == 0 { return []; }
    if v.Arr? {
      found := FindInItems(v.items, path, depth - 1, bad);
    } else {
      found := FindInFields(v.fields, path, depth - 1, bad);
    }
  }

  method FindInItems(items: seq<Value>, path: string, depth: nat, bad: Prohibited) returns (found: seq<string>)
    ensures found == ScanItems(items, path, depth, bad)
    decreases depth, 1
  {
    found := [];
    for i := 0 to |items|
      invariant found == ScanItems(items[..i], path, depth, bad)
    {
      assert items[..i + 1][..i] == items[..i];
      var below := FindProhibitedKeys(items[i], IndexPath(path, i), depth, bad);
      found := found + below;
    }
    assert items[..|items|] == items;
  }

  method FindInFields(fields: seq<(string, Value)>, path: string, depth: nat, bad: Prohibited) returns (found: seq<string>)
    ensures found == ScanFields(fields, path, depth, bad)
    decreases depth, 1
  {
    found := [];
    for i := 0 to |fields|
      invariant found == ScanFields(fields[..i], path, depth, bad)
    {
      assert fields[..i + 1][..i] == fields[..i];
      var (key, child) := fields[i];
      var here := KeyPath(path, key);
      var own := if bad(key) then [here] else [];
      var below := FindProhibitedKeys(child, here, depth, bad);
      found := found + own + below;
    }
    assert fields[..|fields|] == fields;
  }

  // ---- The strip ---------------------------------------------------------------------

  datatype Stripped<T> = Stripped(clean: T, dropped: seq<string>)

  function Strip(v: Value, path: string, depth: nat, bad: Prohibited): Stripped<Value>
    decreases depth, 0, 0
  {
    if v.Leaf? || depth == 0 then Stripped(v, [])
    else if v.Arr? then
      var r := StripItems(v.items, path, depth - 1, bad);
      Stripped(Arr(r.clean), r.dropped)
    else
      var r := StripFields(v.fields, path, depth - 1, bad);
      Stripped(Obj(r.clean), r.dropped)
  }

  function StripItems(items: seq<Value>, path: string, depth: nat, bad: Prohibited): Stripped<seq<Value>>
    decreases depth, 1, |items|
  {
    if items == [] then Stripped([], [])
    else
      var n := |items| - 1;
      var before, last := StripItems(items[..n], path, depth, bad), Strip(items[n], IndexPath(path, n), depth, bad);
      Stripped(before.clean + [last.clean], before.dropped + last.dropped)
  }

  function StripFields(fields: seq<(string, Value)>, path: string, depth: nat, bad: Prohibited): Stripped<seq<(string, Value)>>
    decreases depth, 1, |fields|
  {
    if fields == [] then Stripped([], [])
    else
      var (key, child) := fields[|fields| - 1];
      var before, here := StripFields(fields[..|fields| - 1], path, depth, bad), KeyPath(path, key);
      if bad(key) then Stripped(before.clean, before.dropped + [here])
      else
        var last := Strip(child, here, depth, bad);
        Stripped(before.clean + [(key, last.clean)], before.dropped + last.dropped)
  }

  method StripCommercialFields(v: Value, path: string, depth: nat, bad: Prohibited) returns (r: Stripped<Value>)
    ensures r == Strip(v, path, depth, bad)
    decreases depth
  {
    if v.Leaf? || depth == 0 { return Stripped(v, []); }
    var dropped: seq<string> := [];
    if v.Arr? {
      var items: seq<Value> := [];
      for i := 0 to |v.items|
        invariant Stripped(items, dropped) == StripItems(v.items[..i], path, depth - 1, bad)
      {
        assert v.items[..i + 1][..i] == v.items[..i];
        var below := StripCommercialFields(v.items[i], IndexPath(path, i), depth - 1, bad);
        items, dropped := items + [below.clean], dropped + below.dropped;
      }
      assert v.items[..|v.items|] == v.items;
      return Stripped(Arr(items), dropped);
    }
    var out: seq<(string, Value)> := [];
    for i := 0 to |v.fields|
      invariant Stripped(out, dropped) == StripFields(v.fields[..i], path, depth - 1, bad)
    {
      assert v.fields[..i + 1][..i] == v.fields[..i];
      var (key, child) := v.fields[i];
      var here := KeyPath(path, key);
      if bad(key) {
        dropped := dropped + [here];
      } else {
        var below := StripCommercialFields(child, here, depth - 1, bad);
        out, dropped := out + [(key, below.clean)], dropped + below.dropped;
      }
    }
    assert v.fields[..|v.fields|] == v.fields;
    r := Stripped(Obj(out), dropped);
  }

  // ---- A stripped value is clean ---------------------------------------------------------

  lemma ItemsSplit(items: seq<Value>, path: string, depth: nat, bad: Prohibited)
    requires items != []
    ensures var n := |items| - 1;
      var front, last := StripItems(items[..n], path, depth, bad), Strip(items[n], IndexPath(path, n), depth, bad);
      && StripItems(items, path, depth, bad) == Stripped(front.clean + [last.clean], front.dropped + last.dropped)
      && ScanItems(items, path, depth, bad)
           == ScanItems(items[..n], path, depth, bad) + Scan(items[n], IndexPath(path, n), depth, bad)
  {
  }

  lemma ScanOfStrippedItems(v: Value, path: string, depth: nat, bad: Prohibited, other: string)
    requires v.Arr? && depth > 0
    ensures Scan(Strip(v, path, depth, bad).clean, other, depth, bad)
         == ScanItems(StripItems(v.items, path, depth - 1, bad).clean, other, depth - 1, bad)
  {
  }

  lemma ScanOfStrippedFields(v: Value, path: string, depth: nat, bad: Prohibited, other: string)
    requires v.Obj? && depth > 0
    ensures Scan(Strip(v, path, depth, bad).clean, other, depth, bad)
         == ScanFields(StripFields(v.fields, path, depth - 1, bad).clean, other, depth - 1, bad)
  {
  }

  lemma NothingToStrip(v: Value, path: string, depth: nat, bad: Prohibited, other: string)
    requires v.Leaf? || depth == 0
    ensures Scan(Strip(v, path, depth, bad).clean, other, depth, bad) == []
  {
  }

  /** Scanning the stripped copy with the same bound finds nothing, whatever path it starts at. */
  lemma {:induction false} StrippedIsClean(v: Value, path: string, depth: nat, bad: Prohibited, other: string)
    ensures Scan(Strip(v, path, depth, bad).clean, other, depth, bad) == []
    decreases depth, 0, 0
  {
    if v.Leaf? || depth == 0 {
      NothingToStrip(v, path, depth, bad, other);
    } else if v.Arr? {
      StrippedItemsAreClean(v.items, path, depth - 1, bad, other);
      ScanOfStrippedItems(v, path, depth, bad, other);
    } else {
      StrippedFieldsAreClean(v.fields, path, depth - 1, bad, other);
      ScanOfStrippedFields(v, path, depth, bad, other);
    }
  }

  lemma {:induction false} StrippedItemsLength(items: seq<Value>, path: string, depth: nat, bad: Prohibited)
    ensures |StripItems(items, path, depth, bad).clean| == |items|
    decreases |items|
  {
    if items == [] {
    } else {
      StrippedItemsLength(items[..|items| - 1], path, depth, bad);
    }
  }

  lemma {:induction false} StrippedItemsAreClean(items: seq<Value>, path: string, depth: nat, bad: Prohibited, other: string)
    ensures ScanItems(StripItems(items, path, depth, bad).clean, other, depth, bad) == []
    decreases depth, 1, |items|
  {
    if items == [] {
    } else {
      var n := |items| - 1;
      StrippedItemsLength(items, path, depth, bad);
      StrippedItemsAreClean(items[..n], path, depth, bad, other);
      StrippedIsClean(items[n], IndexPath(path, n), depth, bad, IndexPath(other, n));
      var clean := StripItems(items, path, depth, bad).clean;
      ItemsSplit(items, path, depth, bad);
      ItemsSplit(clean, other, depth, bad);
      assert clean[..n] == StripItems(items[..n], path, depth, bad).clean;
    }
  }

  lemma {:induction false} StrippedFieldsAreClean(fields: seq<(string, Value)>, path: string, depth: nat, bad: Prohibited, other: string)
    ensures ScanFields(StripFields(fields, path, depth, bad).clean, other, depth, bad) == []
    decreases depth, 1, |fields|
  {
    if fields == [] {
    } else {
      var (key, child) := fields[|fields| - 1];
      var front := StripFields(fields[..|fields| - 1], path, depth, bad).clean;
      StrippedFieldsAreClean(fields[..|fields| - 1], path, depth, bad, other);
      if !bad(key) {
        StrippedIsClean(child, KeyPath(path, key), depth, bad, KeyPath(other, key));
        var clean := StripFields(fields, path, depth, bad).clean;
        assert clean[..|clean| - 1] == front;
      }
    }
  }

  // ---- Dropped exactly what was found --------------------------------------------------------

  predicate IsPrefix(p: string, s: string) { |p| <= |s| && s[..|p|] == p }

  ghost predicate AllBelow(path: string, found: seq<string>) {
    forall j :: 0 <= j < |found| ==> IsPrefix(path, found[j])
  }

  ghost predicate HasPrefixIn(dropped: seq<string>, path: string) {
    exists i :: 0 <= i < |dropped| && IsPrefix(dropped[i], path)
  }

  /** Every dropped path was found, and everything found lies at or below a dropped path. */
  ghost predicate Accounts(dropped: seq<string>, found: seq<string>) {
    && (forall i :: 0 <= i < |dropped| ==> dropped[i] in found)
    && (forall j :: 0 <= j < |found| ==> HasPrefixIn(dropped, found[j]))
  }

  lemma PrefixInMore(d1: seq<string>, d2: seq<string>, path: string)
    requires HasPrefixIn(d1, path) || HasPrefixIn(d2, path)
    ensures HasPrefixIn(d1 + d2, path)
  {
    var d := d1 + d2;
    if HasPrefixIn(d1, path) {
      var i :| 0 <= i < |d1| && IsPrefix(d1[i], path);
      assert IsPrefix(d[i], path);
    } else {
      var i :| 0 <= i < |d2| && IsPrefix(d2[i], path);
      assert IsPrefix(d[|d1| + i], path);
    }
  }

  lemma AccountsAppend(d1: seq<string>, f1: seq<string>, d2: seq<string>, f2: seq<string>)
    requires Accounts(d1, f1) && Accounts(d2, f2)
    ensures Accounts(d1 + d2, f1 + f2)
  {
    var d, f := d1 + d2, f1 + f2;
    forall i | 0 <= i < |d| ensures d[i] in f {
      assert d[i] == if i < |d1| then d1[i] else d2[i - |d1|];
    }
    forall j | 0 <= j < |f| ensures HasPrefixIn(d, f[j]) {
      assert f[j] == if j < |f1| then f1[j] else f2[j - |f1|];
      PrefixInMore(d1, d2, f[j]);
    }
  }

  lemma BelowAppend(path: string, a: seq<string>, b: seq<string>)
    requires AllBelow(path, a) && AllBelow(path, b)
    ensures AllBelow(path, a + b)
  {
  }

  lemma BelowHigher(path: string, here: string, found: seq<string>)
    requires IsPrefix(path, here) && AllBelow(here, found)
    ensures AllBelow(path, found)
  {
    forall j | 0 <= j < |found| ensures IsPrefix(path, found[j]) { PrefixTransitive(path, here, found[j]); }
  }

  lemma {:induction false} ScanIsBelow(v: Value, path: string, depth: nat, bad: Prohibited)
    ensures AllBelow(path, Scan(v, path, depth, bad))
    decreases depth, 0, 0
  {
    if v.Arr? && depth > 0 { ScanItemsAreBelow(v.items, path, depth - 1, bad); }
    if v.Obj? && depth > 0 { ScanFieldsAreBelow(v.fields, path, depth - 1, bad); }
  }

  lemma PrefixTransitive(a: string, b: string, c: string)
    requires IsPrefix(a, b) && IsPrefix(b, c)
    ensures IsPrefix(a, c)
  {
    assert c[..|a|] == c[..|b|][..|a|];
  }

  lemma PathsExtend(path: string, i: nat, key: string)
    ensures IsPrefix(path, IndexPath(path, i)) && IsPrefix(path, KeyPath(path, key))
  {
  }

  lemma {:induction false} ScanItemsAreBelow(items: seq<Value>, path: string, depth: nat, bad: Prohibited)
    ensures AllBelow(path, ScanItems(items, path, depth, bad))
    decreases depth, 1, |items|
  {
    if items == [] {
    } else {
      var n := |items| - 1;
      var here := IndexPath(path, n);
      var last := Scan(items[n], here, depth, bad);
      ScanItemsAreBelow(items[..n], path, depth, bad);
      ScanIsBelow(items[n], here, depth, bad);
      PathsExtend(path, n, "");
      BelowHigher(path, here, last);
      BelowAppend(path, ScanItems(items[..n], path, depth, bad), last);
    }
  }

  lemma {:induction false} ScanFieldsAreBelow(fields: seq<(string, Value)>, path: string, depth: nat, bad: Prohibited)
    ensures AllBelow(path, ScanFields(fields, path, depth, bad))
    decreases depth, 1, |fields|
  {
    if fields == [] {
    } else {
      var (key, child) := fields[|fields| - 1];
      var front, here := ScanFields(fields[..|fields| - 1], path, depth, bad), KeyPath(path, key);
      var own, last := if bad(key) then [here] else [], Scan(child, here, depth, bad);
      ScanFieldsAreBelow(fields[..|fields| - 1], path, depth, bad);
      ScanIsBelow(child, here, depth, bad);
      PathsExtend(path, 0, key);
      BelowHigher(path, here, last);
      BelowAppend(path, front, own);
      BelowAppend(path, front + own, last);
    }
  }

  /** The report of what was dropped accounts for the whole scan of the original. */
  lemma {:induction false} DroppedAccountsForFound(v: Value, path: string, depth: nat, bad: Prohibited)
    ensures Accounts(Strip(v, path, depth, bad).dropped, Scan(v, path, depth, bad))
    decreases depth, 0, 0
  {
    if v.Arr? && depth > 0 { DroppedItemsAccount(v.items, path, depth - 1, bad); }
    if v.Obj? && depth > 0 { DroppedFieldsAccount(v.fields, path, depth - 1, bad); }
  }

  lemma {:induction false} DroppedItemsAccount(items: seq<Value>, path: string, depth: nat, bad: Prohibited)
    ensures Accounts(StripItems(items, path, depth, bad).dropped, ScanItems(items, path, depth, bad))
    decreases depth, 1, |items|
  {
    if items == [] {
    } else {
      var n := |items| - 1;
      DroppedItemsAccount(items[..n], path, depth, bad);
      DroppedAccountsForFound(items[n], IndexPath(path, n), depth, bad);
      AccountsAppend(StripItems(items[..n], path, depth, bad).dropped, ScanItems(items[..n], path, depth, bad),
                     Strip(items[n], IndexPath(path, n), depth, bad).dropped, Scan(items[n], IndexPath(path, n), depth, bad));
    }
  }

  lemma {:induction false} DroppedFieldsAccount(fields: seq<(string, Value)>, path: string, depth: nat, bad: Prohibited)
    ensures Accounts(StripFields(fields, path, depth, bad).dropped, ScanFields(fields, path, depth, bad))
    decreases depth, 1, |fields|
  {
    if fields == [] {
    } else {
      var (key, child) := fields[|fields| - 1];
      var front, here := fields[..|fields| - 1], KeyPath(path, key);
      var d, f := StripFields(front, path, depth, bad).dropped, ScanFields(front, path, depth, bad);
      var own, below := OneFieldDropped(key, child, here, depth, bad), OneFieldFound(key, child, here, depth, bad);
      DroppedFieldsAccount(front, path, depth, bad);
      if bad(key) {
        ScanIsBelow(child, here, depth, bad);
        OneAccountsForAllBelow(here, Scan(child, here, depth, bad));
      } else {
        DroppedAccountsForFound(child, here, depth, bad);
        assert below == Scan(child, here, depth, bad);
      }
      AccountsAppend(d, f, own, below);
      FieldsSplit(fields, path, depth, bad);
    }
  }

  function OneFieldDropped(key: string, child: Value, here: string, depth: nat, bad: Prohibited): seq<string> {
    if bad(key) then [here] else Strip(child, here, depth, bad).dropped
  }

  function OneFieldFound(key: string, child: Value, here: string, depth: nat, bad: Prohibited): seq<string> {
    (if bad(key) then [here] else []) + Scan(child, here, depth, bad)
  }

  lemma FieldsSplit(fields: seq<(string, Value)>, path: string, depth: nat, bad: Prohibited)
    requires fields != []
    ensures var (key, child) := fields[|fields| - 1];
      var front, here := fields[..|fields| - 1], KeyPath(path, key);
      && StripFields(fields, path, depth, bad).dropped
           == StripFields(front, path, depth, bad).dropped + OneFieldDropped(key, child, here, depth, bad)
      && ScanFields(fields, path, depth, bad)
           == ScanFields(front, path, depth, bad) + OneFieldFound(key, child, here, depth, bad)
  {
  }

  lemma OneAccountsForAllBelow(here: string, below: seq<string>)
    requires AllBelow(here, below)
    ensures Accounts([here], [here] + below)
  {
    var found := [here] + below;
    forall j | 0 <= j < |found| ensures HasPrefixIn([here], found[j]) {
      assert IsPrefix([here][0], found[j]) by {
        assert found[j] == if j == 0 then here else below[j - 1];
      }
    }
  }

  /** Something is dropped exactly when the scan of the original finds something. */
  lemma DropsExactlyWhenFound(v: Value, path: string, depth: nat, bad: Prohibited)
    ensures Strip(v, path, depth, bad).dropped == [] <==> Scan(v, path, depth, bad) == []
  {
    DroppedAccountsForFound(v, path, depth, bad);
    var d, f := Strip(v, path, depth, bad).dropped, Scan(v, path, depth, bad);
    if d != [] { assert d[0] in f; }
    assert f != [] ==> HasPrefixIn(d, f[0]);
  }

  // ---- Clean values are untouched --------------------------------------------------------------

  lemma {:induction false} CleanIsUntouched(v: Value, path: string, depth: nat, bad: Prohibited)
    requires Scan(v, path, depth, bad) == []
    ensures Strip(v, path, depth, bad) == Stripped(v, [])
    decreases depth, 0, 0
  {
    if v.Arr? && depth > 0 { CleanItemsAreUntouched(v.items, path, depth - 1, bad); }
    if v.Obj? && depth > 0 { CleanFieldsAreUntouched(v.fields, path, depth - 1, bad); }
  }

  lemma {:induction false} CleanItemsAreUntouched(items: seq<Value>, path: string, depth: nat, bad: Prohibited)
    requires ScanItems(items, path, depth, bad) == []
    ensures StripItems(items, path, depth, bad) == Stripped(items, [])
    decreases depth, 1, |items|
  {
    if items == [] {
    } else {
      var n := |items| - 1;
      assert items == items[..n] + [items[n]];
      ItemsSplit(items, path, depth, bad);
      EmptyParts(ScanItems(items[..n], path, depth, bad), Scan(items[n], IndexPath(path, n), depth, bad));
      CleanItemsAreUntouched(items[..n], path, depth, bad);
      CleanIsUntouched(items[n], IndexPath(path, n), depth, bad);
    }
  }

  lemma {:induction false} CleanFieldsAreUntouched(fields: seq<(string, Value)>, path: string, depth: nat, bad: Prohibited)
    requires ScanFields(fields, path, depth, bad) == []
    ensures StripFields(fields, path, depth, bad) == Stripped(fields, [])
    decreases depth, 1, |fields|
  {
    if fields == [] {
    } else {
      var (key, child) := fields[|fields| - 1];
      var front := fields[..|fields| - 1];
      assert fields == front + [(key, child)];
      FieldsSplit(fields, path, depth, bad);
      EmptyParts(ScanFields(front, path, depth, bad), OneFieldFound(key, child, KeyPath(path, key), depth, bad));
      EmptyParts(if bad(key) then [KeyPath(path, key)] else [], Scan(child, KeyPath(path, key), depth, bad));
      CleanFieldsAreUntouched(front, path, depth, bad);
      CleanIsUntouched(child, KeyPath(path, key), depth, bad);
    }
  }

  lemma EmptyParts(a: seq<string>, b: seq<string>)
    ensures a + b == [] <==> a == [] && b == []
  {
    assert |a + b| == |a| + |b|;
  }

  /** Stripping twice is stripping once, and the second time nothing is dropped. */
  lemma StrippingIsIdempotent(v: Value, path: string, depth: nat, bad: Prohibited)
    ensures var once := Strip(v, path, depth, bad).clean; Strip(once, path, depth, bad) == Stripped(once, [])
  {
    StrippedIsClean(v, path, depth, bad, path);
    CleanIsUntouched(Strip(v, path, depth, bad).clean, path, depth, bad);
  }

  // ---- What the bound leaves alone --------------------------------------------------------------

  /** Nesting levels below which the bounded walks do not look. */
  predicate WithinBound(v: Value, depth: nat)
    decreases depth
  {
    v.Leaf? || (depth > 0 &&
      if v.Arr? then forall i :: 0 <= i < |v.items| ==> WithinBound(v.items[i], depth - 1)
      else forall i :: 0 <= i < |v.fields| ==> WithinBound(v.fields[i].1, depth - 1))
  }

  /** A value within the bound is scanned whole: a deeper scan finds the same. */
  lemma {:induction false} DeeperScansAgree(v: Value, path: string, depth: nat, deeper: nat, bad: Prohibited)
    requires WithinBound(v, depth) && depth <= deeper
    ensures Scan(v, path, deeper, bad) == Scan(v, path, depth, bad)
    decreases depth, 0, 0
  {
    if v.Arr? { DeeperItemsAgree(v.items, path, depth - 1, deeper - 1, bad); }
    if v.Obj? { DeeperFieldsAgree(v.fields, path, depth - 1, deeper - 1, bad); }
  }

  lemma {:induction false} DeeperItemsAgree(items: seq<Value>, path: string, depth: nat, deeper: nat, bad: Prohibited)
    requires depth <= deeper && forall i :: 0 <= i < |items| ==> WithinBound(items[i], depth)
    ensures ScanItems(items, path, deeper, bad) == ScanItems(items, path, depth, bad)
    decreases depth, 1, |items|
  {
    if items == [] {
    } else {
      var n := |items| - 1;
      DeeperItemsAgree(items[..n], path, depth, deeper, bad);
      DeeperScansAgree(items[n], IndexPath(path, n), depth, deeper, bad);
    }
  }

  lemma {:induction false} DeeperFieldsAgree(fields: seq<(string, Value)>, path: string, depth: nat, deeper: nat, bad: Prohibited)
    requires depth <= deeper && forall i :: 0 <= i < |fields| ==> WithinBound(fields[i].1, depth)
    ensures ScanFields(fields, path, deeper, bad) == ScanFields(fields, path, depth, bad)
    decreases depth, 1, |fields|
  {
    if fields == [] {
    } else {
      var (key, child) := fields[|fields| - 1];
      DeeperFieldsAgree(fields[..|fields| - 1], path, depth, deeper, bad);
      DeeperScansAgree(child, KeyPath(path, key), depth, deeper, bad);
    }
  }

  /** Below the bound a prohibited key survives the strip. */
  lemma BelowTheBoundSurvives(key: string, depth: nat, bad: Prohibited)
    requires bad(key)
    ensures exists v: Value ::
      Strip(v, "", depth, bad) == Stripped(v, []) && Scan(v, "", depth + 1, bad) != []
  {
    var v := Nested(key, depth);
    NestedIsUnseen(key, "", depth, bad);
  }

  function Nested(key: string, depth: nat): Value {
    if depth == 0 then Obj([(key, Leaf(""))]) else Arr([Nested(key, depth - 1)])
  }

  lemma {:induction false} NestedIsUnseen(key: string, path: string, depth: nat, bad: Prohibited)
    requires bad(key)
    ensures Strip(Nested(key, depth), path, depth, bad) == Stripped(Nested(key, depth), [])
    ensures Scan(Nested(key, depth), path, depth + 1, bad) != []
    decreases depth
  {
    if depth == 0 {
      var fields := [(key, Leaf(""))];
      assert fields[..0] == [];
      assert ScanFields(fields, path, 0, bad) == [] + [KeyPath(path, key)] + [];
    } else {
      var below := Nested(key, depth - 1);
      var items, here := [below], IndexPath(path, 0);
      NestedIsUnseen(key, here, depth - 1, bad);
      assert items[..0] == [];
      assert ScanItems(items, path, depth, bad) == [] + Scan(below, here, depth, bad);
      assert StripItems([], path, depth - 1, bad) == Stripped([], []);
      var none: seq<string> := [];
      assert StripItems(items, path, depth - 1, bad) == Stripped([] + [below], none + none);
      assert [] + [below] == items && none + none == [];
      assert StripItems(items, path, depth - 1, bad) == Stripped(items, []);
    }
  }
}
