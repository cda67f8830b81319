/** What the scan finds and the strip drops and keeps, place by place in the value
    (src/core/trust.js). A place is named by the positions that lead to it. */
module TrustPaths {
  import opened Texts
  import opened Trust

  function Width(v: Value): nat { if v.Arr? then |v.items| else if v.Obj? then |v.fields| else 0 }

  function ChildAt(v: Value, i: nat): Value
    requires i < Width(v)
  {
    if v.Arr? then v.items[i] else v.fields[i].1
  }

  /** What lies at a place, if anything does. */
  function Below(v: Value, place: seq<nat>): Option<Value>
    decreases |place|
  {
    if place == [] then Some(v)
    else if place[0] < Width(v) then Below(ChildAt(v, place[0]), place[1..])
    else None
  }

  function StepPath(v: Value, path: string, i: nat): string
    requires i < Width(v)
  {
    if v.Arr? then IndexPath(path, i) else KeyPath(path, v.fields[i].0)
  }

  /** How a place is written. */
  function PathTo(v: Value, path: string, place: seq<nat>): string
    decreases |place|
  {
    if place == [] || place[0] >= Width(v) then path
    else PathTo(ChildAt(v, place[0]), StepPath(v, path, place[0]), place[1..])
  }

  /** No field on the way is prohibited. */
  predicate Clear(v: Value, place: seq<nat>, bad: Prohibited)
    decreases |place|
  {
    place == [] || place[0] >= Width(v)
    || ((v.Obj? ==> !bad(v.fields[place[0]].0)) && Clear(ChildAt(v, place[0]), place[1..], bad))
  }

  /** The object at the place, less deep than the bound, has a prohibited field there; its path is `p`. */
  ghost predicate ProhibitedAt(v: Value, path: string, depth: nat, bad: Prohibited, place: seq<nat>, f: nat, p: string) {
    && |place| < depth && Below(v, place).Some? && Below(v, place).value.Obj?
    && f < |Below(v, place).value.fields| && bad(Below(v, place).value.fields[f].0)
    && p == KeyPath(PathTo(v, path, place), Below(v, place).value.fields[f].0)
  }

  // ---- The scan -------------------------------------------------------------------

  /** The path is that of the child's field, or found in the child. */
  ghost predicate FoundAtChild(v: Value, i: nat, path: string, depth: nat, bad: Prohibited, p: string) {
    && i < Width(v)
    && ((v.Obj? && bad(v.fields[i].0) && p == StepPath(v, path, i)) || p in Scan(ChildAt(v, i), StepPath(v, path, i), depth, bad))
  }

  lemma SameChild(a: Value, b: Value, i: nat, path: string, depth: nat, bad: Prohibited, p: string)
    requires i < Width(a) && i < Width(b) && StepPath(a, path, i) == StepPath(b, path, i) && ChildAt(a, i) == ChildAt(b, i)
    requires (a.Obj? && bad(a.fields[i].0)) <==> (b.Obj? && bad(b.fields[i].0))
    ensures FoundAtChild(a, i, path, depth, bad, p) <==> FoundAtChild(b, i, path, depth, bad, p)
    ensures DroppedAtChild(a, i, path, depth, bad, p) <==> DroppedAtChild(b, i, path, depth, bad, p)
  {
  }

  /** The value without its last child. */
  function Front(v: Value): Value
    requires Width(v) > 0
  {
    if v.Arr? then Arr(v.items[..|v.items| - 1]) else Obj(v.fields[..|v.fields| - 1])
  }

  lemma FrontChildren(v: Value, path: string, depth: nat, bad: Prohibited, p: string)
    requires Width(v) > 0
    ensures Width(Front(v)) == Width(v) - 1 && Front(v).Arr? == v.Arr? && !Front(v).Leaf?
    ensures forall i: nat :: i < Width(v) - 1 ==>
      (FoundAtChild(Front(v), i, path, depth, bad, p) <==> FoundAtChild(v, i, path, depth, bad, p))
    ensures forall i: nat :: i < Width(v) - 1 ==>
      (DroppedAtChild(Front(v), i, path, depth, bad, p) <==> DroppedAtChild(v, i, path, depth, bad, p))
  {
    forall i: nat | i < Width(v) - 1
      ensures FoundAtChild(Front(v), i, path, depth, bad, p) <==> FoundAtChild(v, i, path, depth, bad, p)
      ensures DroppedAtChild(Front(v), i, path, depth, bad, p) <==> DroppedAtChild(v, i, path, depth, bad, p)
    {
      SameChild(Front(v), v, i, path, depth, bad, p);
    }
  }

  lemma ScanOneMore(v: Value, path: string, depth: nat, bad: Prohibited, p: string)
    requires Width(v) > 0
    ensures p in Scan(v, path, depth + 1, bad) <==>
      p in Scan(Front(v), path, depth + 1, bad) || FoundAtChild(v, Width(v) - 1, path, depth, bad, p)
  {
  }

  ghost predicate FoundAtSome(v: Value, path: string, depth: nat, bad: Prohibited, p: string) {
    exists i: nat :: FoundAtChild(v, i, path, depth, bad, p)
  }

  lemma FoundInFront(v: Value, path: string, depth: nat, bad: Prohibited, p: string)
    requires Width(v) > 0 && FoundAtSome(Front(v), path, depth, bad, p)
    ensures FoundAtSome(v, path, depth, bad, p)
  {
    FrontChildren(v, path, depth, bad, p);
    var i: nat :| FoundAtChild(Front(v), i, path, depth, bad, p);
    assert FoundAtChild(v, i, path, depth, bad, p);
  }

  lemma FoundInFrontOrLast(v: Value, path: string, depth: nat, bad: Prohibited, p: string)
    requires Width(v) > 0 && FoundAtSome(v, path, depth, bad, p)
    ensures FoundAtSome(Front(v), path, depth, bad, p) || FoundAtChild(v, Width(v) - 1, path, depth, bad, p)
  {
    FrontChildren(v, path, depth, bad, p);
    var i: nat :| FoundAtChild(v, i, path, depth, bad, p);
    if i < Width(v) - 1 { assert FoundAtChild(Front(v), i, path, depth, bad, p); }
  }

  lemma FoundAtSomeMore(v: Value, path: string, depth: nat, bad: Prohibited, p: string)
    requires Width(v) > 0
    ensures FoundAtSome(v, path, depth, bad, p) <==>
      FoundAtSome(Front(v), path, depth, bad, p) || FoundAtChild(v, Width(v) - 1, path, depth, bad, p)
  {
    if FoundAtSome(Front(v), path, depth, bad, p) { FoundInFront(v, path, depth, bad, p); }
    if FoundAtSome(v, path, depth, bad, p) { FoundInFrontOrLast(v, path, depth, bad, p); }
  }

  lemma NothingInNothing(v: Value, path: string, depth: nat, bad: Prohibited, p: string)
    requires Width(v) == 0
    ensures p !in Scan(v, path, depth + 1, bad) && !FoundAtSome(v, path, depth, bad, p)
    ensures p !in Trust.Strip(v, path, depth + 1, bad).dropped && !DroppedAtSome(v, path, depth, bad, p)
  {
  }

  lemma {:induction false} ScanByChild(v: Value, path: string, depth: nat, bad: Prohibited, p: string)
    ensures p in Scan(v, path, depth + 1, bad) <==> FoundAtSome(v, path, depth, bad, p)
    decreases Width(v)
  {
    if Width(v) == 0 {
      NothingInNothing(v, path, depth, bad, p);
    } else {
      FrontChildren(v, path, depth, bad, p);
      ScanByChild(Front(v), path, depth, bad, p);
      ScanOneMore(v, path, depth, bad, p);
      FoundAtSomeMore(v, path, depth, bad, p);
    }
  }

  lemma FoundChild(v: Value, path: string, depth: nat, bad: Prohibited, p: string) returns (i: nat)
    requires depth > 0 && p in Scan(v, path, depth, bad)
    ensures FoundAtChild(v, i, path, depth - 1, bad, p)
  {
    ScanByChild(v, path, depth - 1, bad, p);
    i :| FoundAtChild(v, i, path, depth - 1, bad, p);
  }

  lemma ChildIsFound(v: Value, i: nat, path: string, depth: nat, bad: Prohibited, p: string)
    requires depth > 0 && FoundAtChild(v, i, path, depth - 1, bad, p)
    ensures p in Scan(v, path, depth, bad)
  {
    ScanByChild(v, path, depth - 1, bad, p);
  }

  lemma OwnFieldIsFound(v: Value, f: nat, path: string, depth: nat, bad: Prohibited, p: string)
    requires depth > 0 && v.Obj? && f < Width(v) && bad(v.fields[f].0) && p == StepPath(v, path, f)
    ensures p in Scan(v, path, depth, bad)
  {
    ChildIsFound(v, f, path, depth, bad, p);
  }

  lemma DeeperIsFound(v: Value, i: nat, path: string, depth: nat, bad: Prohibited, p: string)
    requires depth > 0 && i < Width(v) && p in Scan(ChildAt(v, i), StepPath(v, path, i), depth - 1, bad)
    ensures p in Scan(v, path, depth, bad)
  {
    ChildIsFound(v, i, path, depth, bad, p);
  }

  lemma PlaceBelow(v: Value, path: string, depth: nat, bad: Prohibited, i: nat, rest: seq<nat>, f: nat, p: string)
    requires i < Width(v)
    ensures ProhibitedAt(v, path, depth + 1, bad, [i] + rest, f, p)
       <==> ProhibitedAt(ChildAt(v, i), StepPath(v, path, i), depth, bad, rest, f, p)
  {
    assert ([i] + rest)[1..] == rest;
  }

  lemma PlaceHere(v: Value, path: string, depth: nat, bad: Prohibited, f: nat, p: string)
    ensures ProhibitedAt(v, path, depth + 1, bad, [], f, p)
       <==> v.Obj? && f < Width(v) && bad(v.fields[f].0) && p == StepPath(v, path, f)
  {
  }

  /** A path is found exactly if it names a prohibited field less deep than the bound. */
  lemma FoundExactly(v: Value, path: string, depth: nat, bad: Prohibited, p: string)
    ensures p in Scan(v, path, depth, bad) <==> exists place, f: nat :: ProhibitedAt(v, path, depth, bad, place, f, p)
  {
    if p in Scan(v, path, depth, bad) {
      var place, f := FoundHasPlace(v, path, depth, bad, p);
    }
    if place, f: nat :| ProhibitedAt(v, path, depth, bad, place, f, p) {
      PlaceIsFound(v, path, depth, bad, place, f, p);
    }
  }

  lemma NothingAtBound(v: Value, path: string, bad: Prohibited)
    ensures Scan(v, path, 0, bad) == [] && Trust.Strip(v, path, 0, bad).dropped == []
  {
  }

  lemma {:induction false} FoundHasPlace(v: Value, path: string, depth: nat, bad: Prohibited, p: string)
    returns (place: seq<nat>, f: nat)
    requires p in Scan(v, path, depth, bad)
    ensures ProhibitedAt(v, path, depth, bad, place, f, p)
    decreases depth
  {
    NothingAtBound(v, path, bad);
    var i := FoundChild(v, path, depth, bad, p);
    if v.Obj? && bad(v.fields[i].0) && p == StepPath(v, path, i) {
      place, f := [], i;
      PlaceHere(v, path, depth - 1, bad, i, p);
    } else {
      var rest;
      rest, f := FoundHasPlace(ChildAt(v, i), StepPath(v, path, i), depth - 1, bad, p);
      PlaceBelow(v, path, depth - 1, bad, i, rest, f, p);
      place := [i] + rest;
    }
  }

  /** A place is the value itself or lies below one of its children. */
  lemma PlaceSplits(v: Value, path: string, depth: nat, bad: Prohibited, place: seq<nat>, f: nat, p: string)
    requires ProhibitedAt(v, path, depth, bad, place, f, p)
    ensures depth > 0
    ensures place == [] ==> v.Obj? && f < Width(v) && bad(v.fields[f].0) && p == StepPath(v, path, f)
    ensures place != [] ==> place[0] < Width(v)
    ensures place != [] ==>
      ProhibitedAt(ChildAt(v, place[0]), StepPath(v, path, place[0]), depth - 1, bad, place[1..], f, p)
  {
    if place != [] {
      assert place == [place[0]] + place[1..];
      PlaceBelow(v, path, depth - 1, bad, place[0], place[1..], f, p);
    }
  }

  lemma {:induction false} PlaceIsFound(v: Value, path: string, depth: nat, bad: Prohibited, place: seq<nat>, f: nat, p: string)
    requires ProhibitedAt(v, path, depth, bad, place, f, p)
    ensures p in Scan(v, path, depth, bad)
    decreases |place|
  {
    PlaceSplits(v, path, depth, bad, place, f, p);
    if place == [] {
      OwnFieldIsFound(v, f, path, depth, bad, p);
    } else {
      PlaceIsFound(ChildAt(v, place[0]), StepPath(v, path, place[0]), depth - 1, bad, place[1..], f, p);
      DeeperIsFound(v, place[0], path, depth, bad, p);
    }
  }

  // ---- What the strip drops ---------------------------------------------------------

  /** The path is that of a prohibited child, or dropped from one that is not. */
  ghost predicate DroppedAtChild(v: Value, i: nat, path: string, depth: nat, bad: Prohibited, p: string) {
    && i < Width(v)
    && if v.Obj? && bad(v.fields[i].0) then p == StepPath(v, path, i)
       else p in Trust.Strip(ChildAt(v, i), StepPath(v, path, i), depth, bad).dropped
  }

  lemma StripOneMore(v: Value, path: string, depth: nat, bad: Prohibited, p: string)
    requires Width(v) > 0
    ensures p in Trust.Strip(v, path, depth + 1, bad).dropped <==>
      p in Trust.Strip(Front(v), path, depth + 1, bad).dropped || DroppedAtChild(v, Width(v) - 1, path, depth, bad, p)
  {
  }

  ghost predicate DroppedAtSome(v: Value, path: string, depth: nat, bad: Prohibited, p: string) {
    exists i: nat :: DroppedAtChild(v, i, path, depth, bad, p)
  }

  lemma DroppedInFront(v: Value, path: string, depth: nat, bad: Prohibited, p: string)
    requires Width(v) > 0 && DroppedAtSome(Front(v), path, depth, bad, p)
    ensures DroppedAtSome(v, path, depth, bad, p)
  {
    FrontChildren(v, path, depth, bad, p);
    var i: nat :| DroppedAtChild(Front(v), i, path, depth, bad, p);
    assert DroppedAtChild(v, i, path, depth, bad, p);
  }

  lemma DroppedInFrontOrLast(v: Value, path: string, depth: nat, bad: Prohibited, p: string)
    requires Width(v) > 0 && DroppedAtSome(v, path, depth, bad, p)
    ensures DroppedAtSome(Front(v), path, depth, bad, p) || DroppedAtChild(v, Width(v) - 1, path, depth, bad, p)
  {
    FrontChildren(v, path, depth, bad, p);
    var i: nat :| DroppedAtChild(v, i, path, depth, bad, p);
    if i < Width(v) - 1 { assert DroppedAtChild(Front(v), i, path, depth, bad, p); }
  }

  lemma DroppedAtSomeMore(v: Value, path: string, depth: nat, bad: Prohibited, p: string)
    requires Width(v) > 0
    ensures DroppedAtSome(v, path, depth, bad, p) <==>
      DroppedAtSome(Front(v), path, depth, bad, p) || DroppedAtChild(v, Width(v) - 1, path, depth, bad, p)
  {
    if DroppedAtSome(Front(v), path, depth, bad, p) { DroppedInFront(v, path, depth, bad, p); }
    if DroppedAtSome(v, path, depth, bad, p) { DroppedInFrontOrLast(v, path, depth, bad, p); }
  }

  lemma {:induction false} StripByChild(v: Value, path: string, depth: nat, bad: Prohibited, p: string)
    ensures p in Trust.Strip(v, path, depth + 1, bad).dropped <==> DroppedAtSome(v, path, depth, bad, p)
    decreases Width(v)
  {
    if Width(v) == 0 {
      NothingInNothing(v, path, depth, bad, p);
    } else {
      FrontChildren(v, path, depth, bad, p);
      StripByChild(Front(v), path, depth, bad, p);
      StripOneMore(v, path, depth, bad, p);
      DroppedAtSomeMore(v, path, depth, bad, p);
    }
  }

  lemma DroppedChild(v: Value, path: string, depth: nat, bad: Prohibited, p: string) returns (i: nat)
    requires depth > 0 && p in Trust.Strip(v, path, depth, bad).dropped
    ensures DroppedAtChild(v, i, path, depth - 1, bad, p)
  {
    StripByChild(v, path, depth - 1, bad, p);
    i :| DroppedAtChild(v, i, path, depth - 1, bad, p);
  }

  lemma ChildIsDropped(v: Value, i: nat, path: string, depth: nat, bad: Prohibited, p: string)
    requires depth > 0 && DroppedAtChild(v, i, path, depth - 1, bad, p)
    ensures p in Trust.Strip(v, path, depth, bad).dropped
  {
    StripByChild(v, path, depth - 1, bad, p);
  }

  lemma OwnFieldIsDropped(v: Value, f: nat, path: string, depth: nat, bad: Prohibited, p: string)
    requires depth > 0 && v.Obj? && f < Width(v) && bad(v.fields[f].0) && p == StepPath(v, path, f)
    ensures p in Trust.Strip(v, path, depth, bad).dropped
  {
    ChildIsDropped(v, f, path, depth, bad, p);
  }

  lemma DeeperIsDropped(v: Value, i: nat, path: string, depth: nat, bad: Prohibited, p: string)
    requires depth > 0 && i < Width(v) && !(v.Obj? && bad(v.fields[i].0))
    requires p in Trust.Strip(ChildAt(v, i), StepPath(v, path, i), depth - 1, bad).dropped
    ensures p in Trust.Strip(v, path, depth, bad).dropped
  {
    ChildIsDropped(v, i, path, depth, bad, p);
  }

  /** A prohibited field reached without passing through another. */
  ghost predicate TopmostAt(v: Value, path: string, depth: nat, bad: Prohibited, place: seq<nat>, f: nat, p: string) {
    ProhibitedAt(v, path, depth, bad, place, f, p) && Clear(v, place, bad)
  }

  lemma TopmostBelow(v: Value, path: string, depth: nat, bad: Prohibited, i: nat, rest: seq<nat>, f: nat, p: string)
    requires i < Width(v)
    ensures TopmostAt(v, path, depth + 1, bad, [i] + rest, f, p) <==>
      !(v.Obj? && bad(v.fields[i].0)) && TopmostAt(ChildAt(v, i), StepPath(v, path, i), depth, bad, rest, f, p)
  {
    assert ([i] + rest)[1..] == rest;
    PlaceBelow(v, path, depth, bad, i, rest, f, p);
  }

  /** A path is dropped exactly if it names a prohibited field, less deep than the bound, that lies
      in no other. */
  lemma DroppedExactly(v: Value, path: string, depth: nat, bad: Prohibited, p: string)
    ensures p in Trust.Strip(v, path, depth, bad).dropped <==> exists place, f: nat :: TopmostAt(v, path, depth, bad, place, f, p)
  {
    if p in Trust.Strip(v, path, depth, bad).dropped {
      var place, f := DroppedHasPlace(v, path, depth, bad, p);
    }
    if place, f: nat :| TopmostAt(v, path, depth, bad, place, f, p) {
      TopmostIsDropped(v, path, depth, bad, place, f, p);
    }
  }

  lemma {:induction false} DroppedHasPlace(v: Value, path: string, depth: nat, bad: Prohibited, p: string)
    returns (place: seq<nat>, f: nat)
    requires p in Trust.Strip(v, path, depth, bad).dropped
    ensures TopmostAt(v, path, depth, bad, place, f, p)
    decreases depth
  {
    NothingAtBound(v, path, bad);
    var i := DroppedChild(v, path, depth, bad, p);
    if v.Obj? && bad(v.fields[i].0) {
      place, f := [], i;
      PlaceHere(v, path, depth - 1, bad, i, p);
    } else {
      var rest;
      rest, f := DroppedHasPlace(ChildAt(v, i), StepPath(v, path, i), depth - 1, bad, p);
      TopmostBelow(v, path, depth - 1, bad, i, rest, f, p);
      place := [i] + rest;
    }
  }

  lemma TopmostSplits(v: Value, path: string, depth: nat, bad: Prohibited, place: seq<nat>, f: nat, p: string)
    requires TopmostAt(v, path, depth, bad, place, f, p) && place != []
    ensures depth > 0 && place[0] < Width(v) && !(v.Obj? && bad(v.fields[place[0]].0))
    ensures TopmostAt(ChildAt(v, place[0]), StepPath(v, path, place[0]), depth - 1, bad, place[1..], f, p)
  {
    PlaceSplits(v, path, depth, bad, place, f, p);
    assert place == [place[0]] + place[1..];
    TopmostBelow(v, path, depth - 1, bad, place[0], place[1..], f, p);
  }

  lemma {:induction false} TopmostIsDropped(v: Value, path: string, depth: nat, bad: Prohibited, place: seq<nat>, f: nat, p: string)
    requires TopmostAt(v, path, depth, bad, place, f, p)
    ensures p in Trust.Strip(v, path, depth, bad).dropped
    decreases |place|
  {
    if place == [] {
      PlaceSplits(v, path, depth, bad, place, f, p);
      OwnFieldIsDropped(v, f, path, depth, bad, p);
    } else {
      TopmostSplits(v, path, depth, bad, place, f, p);
      TopmostIsDropped(ChildAt(v, place[0]), StepPath(v, path, place[0]), depth - 1, bad, place[1..], f, p);
      DeeperIsDropped(v, place[0], path, depth, bad, p);
    }
  }

  // ---- What the strip keeps ----------------------------------------------------------

  /** The places of the fields that stay, in order. */
  ghost predicate StayingPlaces(places: seq<nat>, fields: seq<(string, Value)>, bad: Prohibited) {
    && (forall k :: 0 <= k < |places| ==> places[k] < |fields| && !bad(fields[places[k]].0))
    && (forall k, l :: 0 <= k < l < |places| ==> places[k] < places[l])
    && (forall i: nat :: i < |fields| && !bad(fields[i].0) ==> i in places)
  }

  /** `w` is `v` without its prohibited fields down to the bound: same items, the other fields in
      their order, each with what is left of its value; below the bound it is `v`. */
  ghost predicate IsRest(w: Value, v: Value, depth: nat, bad: Prohibited)
    decreases depth, 0
  {
    if v.Leaf? || depth == 0 then w == v
    else if v.Arr? then
      w.Arr? && |w.items| == |v.items| && forall i :: 0 <= i < |v.items| ==> IsRest(w.items[i], v.items[i], depth - 1, bad)
    else w.Obj? && exists places :: StayingPlaces(places, v.fields, bad) && IsRestOfFields(w.fields, v.fields, places, depth - 1, bad)
  }

  ghost predicate IsRestOfFields(w: seq<(string, Value)>, v: seq<(string, Value)>, places: seq<nat>, depth: nat, bad: Prohibited)
    decreases depth, 1
  {
    && |w| == |places| && (forall k :: 0 <= k < |places| ==> places[k] < |v|)
    && forall k :: 0 <= k < |places| ==>
         w[k].0 == v[places[k]].0 && IsRest(w[k].1, v[places[k]].1, depth, bad)
  }

  lemma {:induction false} RestOfItems(items: seq<Value>, path: string, depth: nat, bad: Prohibited)
    ensures var clean := StripItems(items, path, depth, bad).clean;
      |clean| == |items| && forall i :: 0 <= i < |items| ==> clean[i] == Trust.Strip(items[i], IndexPath(path, i), depth, bad).clean
    decreases |items|
  {
    if items == [] {
    } else {
      var n := |items| - 1;
      RestOfItems(items[..n], path, depth, bad);
      assert forall i :: 0 <= i < n ==> items[..n][i] == items[i];
    }
  }

  /** The fields that stay, each stripped. */
  ghost predicate StripsAt(clean: seq<(string, Value)>, fields: seq<(string, Value)>, places: seq<nat>, path: string, depth: nat, bad: Prohibited) {
    && |clean| == |places|
    && (forall k :: 0 <= k < |places| ==> places[k] < |fields|)
    && forall k :: 0 <= k < |places| ==>
         clean[k] == (fields[places[k]].0, Trust.Strip(fields[places[k]].1, KeyPath(path, fields[places[k]].0), depth, bad).clean)
  }

  lemma {:induction false} RestOfFields(fields: seq<(string, Value)>, path: string, depth: nat, bad: Prohibited) returns (places: seq<nat>)
    ensures StayingPlaces(places, fields, bad)
    ensures StripsAt(StripFields(fields, path, depth, bad).clean, fields, places, path, depth, bad)
    decreases |fields|
  {
    if fields == [] {
      places := [];
    } else {
      var n := |fields| - 1;
      var before := RestOfFields(fields[..n], path, depth, bad);
      places := if bad(fields[n].0) then before else before + [n];
      PlacesOneMore(fields, before, bad);
      StripsOneMore(fields, before, path, depth, bad);
    }
  }

  lemma PlacesOneMore(fields: seq<(string, Value)>, before: seq<nat>, bad: Prohibited)
    requires fields != [] && StayingPlaces(before, fields[..|fields| - 1], bad)
    ensures StayingPlaces(if bad(fields[|fields| - 1].0) then before else before + [|fields| - 1], fields, bad)
  {
    var n := |fields| - 1;
    var places := if bad(fields[n].0) then before else before + [n];
    forall k | 0 <= k < |places| ensures places[k] < |fields| && !bad(fields[places[k]].0) {
      if k < |before| { assert fields[..n][before[k]] == fields[before[k]]; }
    }
    forall i: nat | i < |fields| && !bad(fields[i].0) ensures i in places {
      if i < n {
        assert fields[..n][i] == fields[i];
        assert i in before;
      } else {
        assert places[|before|] == n;
      }
    }
  }

  lemma StripUnfolds(fields: seq<(string, Value)>, path: string, depth: nat, bad: Prohibited)
    requires fields != []
    ensures var n, (key, child) := |fields| - 1, fields[|fields| - 1];
      StripFields(fields, path, depth, bad).clean
        == StripFields(fields[..n], path, depth, bad).clean
           + if bad(key) then [] else [(key, Trust.Strip(child, KeyPath(path, key), depth, bad).clean)]
  {
  }

  lemma StripsInMore(clean: seq<(string, Value)>, fields: seq<(string, Value)>, places: seq<nat>, path: string, depth: nat, bad: Prohibited)
    requires fields != [] && StripsAt(clean, fields[..|fields| - 1], places, path, depth, bad)
    ensures StripsAt(clean, fields, places, path, depth, bad)
  {
    var front := fields[..|fields| - 1];
    forall k | 0 <= k < |places| ensures front[places[k]] == fields[places[k]] { }
  }

  lemma StripsAndLast(clean: seq<(string, Value)>, fields: seq<(string, Value)>, places: seq<nat>, path: string, depth: nat,
                      bad: Prohibited, last: (string, Value))
    requires fields != [] && StripsAt(clean, fields, places, path, depth, bad)
    requires last == (fields[|fields| - 1].0,
      Trust.Strip(fields[|fields| - 1].1, KeyPath(path, fields[|fields| - 1].0), depth, bad).clean)
    ensures StripsAt(clean + [last], fields, places + [|fields| - 1], path, depth, bad)
  {
  }

  lemma StripsOneMore(fields: seq<(string, Value)>, before: seq<nat>, path: string, depth: nat, bad: Prohibited)
    requires fields != []
    requires StripsAt(StripFields(fields[..|fields| - 1], path, depth, bad).clean, fields[..|fields| - 1], before, path, depth, bad)
    ensures StripsAt(StripFields(fields, path, depth, bad).clean, fields,
                     if bad(fields[|fields| - 1].0) then before else before + [|fields| - 1], path, depth, bad)
  {
    var n := |fields| - 1;
    var clean := StripFields(fields[..n], path, depth, bad).clean;
    StripUnfolds(fields, path, depth, bad);
    StripsInMore(clean, fields, before, path, depth, bad);
    if !bad(fields[n].0) {
      StripsAndLast(clean, fields, before, path, depth, bad,
                    (fields[n].0, Trust.Strip(fields[n].1, KeyPath(path, fields[n].0), depth, bad).clean));
    }
  }

  /** Stripping takes away the prohibited fields less deep than the bound and nothing else. */
  lemma {:induction false} StripLeavesTheRest(v: Value, path: string, depth: nat, bad: Prohibited)
    ensures IsRest(Trust.Strip(v, path, depth, bad).clean, v, depth, bad)
    decreases depth
  {
    if v.Leaf? || depth == 0 {
    } else if v.Arr? {
      RestOfItems(v.items, path, depth - 1, bad);
      forall i: nat | i < |v.items|
        ensures IsRest(Trust.Strip(v.items[i], IndexPath(path, i), depth - 1, bad).clean, v.items[i], depth - 1, bad)
      {
        StripLeavesTheRest(v.items[i], IndexPath(path, i), depth - 1, bad);
      }
    } else {
      var places := RestOfFields(v.fields, path, depth - 1, bad);
      forall i: nat | i < |v.fields|
        ensures IsRest(Trust.Strip(v.fields[i].1, KeyPath(path, v.fields[i].0), depth - 1, bad).clean, v.fields[i].1, depth - 1, bad)
      {
        StripLeavesTheRest(v.fields[i].1, KeyPath(path, v.fields[i].0), depth - 1, bad);
      }
      assert IsRestOfFields(Trust.Strip(v, path, depth, bad).clean.fields, v.fields, places, depth - 1, bad);
    }
  }
}
