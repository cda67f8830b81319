/** Text ordering and id-keyed collections, as `compareText` (src/core/validate.js)
    and the `Map`-then-`sort` idiom of the reconciliation and merge code use them. */
module Texts {

  datatype Option<+T> = None | Some(value: T)

  datatype Result<+T, +E> = Ok(value: T) | Err(error: E)

  /** `a < b` on texts: the first differing character decides, a prefix comes first. */
  predicate Less(a: string, b: string) {
    if |b| == 0 then false
    else if |a| == 0 then true
    else a[0] < b[0] || (a[0] == b[0] && Less(a[1..], b[1..]))
  }

  function CompareText(a: string, b: string): int {
    if a == b then 0 else if Less(a, b) then -1 else 1
  }

  lemma {:induction false} LessTotal(a: string, b: string)
    ensures !(Less(a, b) && Less(b, a))
    ensures a != b <==> Less(a, b) || Less(b, a)
  {
    if a == [] || b == [] {
    } else {
      assert a == [a[0]] + a[1..] && b == [b[0]] + b[1..];
      LessTotal(a[1..], b[1..]);
    }
  }

  lemma {:induction false} LessTransitive(a: string, b: string, c: string)
    requires Less(a, b) && Less(b, c)
    ensures Less(a, c)
  {
    if |a| > 0 && a[0] == b[0] == c[0] {
      LessTransitive(a[1..], b[1..], c[1..]);
    }
  }

  predicate IsSpace(c: char) { c == ' ' || '\t' <= c <= '\r' }

  function TrimLeft(s: string): string {
    if s == "" || !IsSpace(s[0]) then s else TrimLeft(s[1..])
  }

  function TrimRight(s: string): string {
    if s == "" || !IsSpace(s[|s| - 1]) then s else TrimRight(s[..|s| - 1])
  }

  /** `strip` of Python and `trim` of JavaScript, on the ASCII spaces. */
  function Strip(s: string): string { TrimRight(TrimLeft(s)) }

  /** `split` on one character. */
  function SplitOn(s: string, c: char): (r: seq<string>)
    ensures |r| >= 1
  {
    if s == "" then [""]
    else
      var rest := SplitOn(s[1..], c);
      if s[0] == c then [""] + rest else [[s[0]] + rest[0]] + rest[1..]
  }

  function Join(parts: seq<string>, separator: string): string {
    if parts == [] then "" else if |parts| == 1 then parts[0] else parts[0] + separator + Join(parts[1..], separator)
  }

  predicate Lacks(s: string, c: char) { forall i :: 0 <= i < |s| ==> s[i] != c }

  lemma {:induction false} SplitFirst(part: string, c: char, rest: string)
    requires Lacks(part, c)
    ensures SplitOn(part + [c] + rest, c) == [part] + SplitOn(rest, c)
  {
    if part == "" {
      assert part + [c] + rest == [c] + rest && ([c] + rest)[1..] == rest;
    } else {
      assert (part + [c] + rest)[1..] == part[1..] + [c] + rest;
      SplitFirst(part[1..], c, rest);
      assert part == [part[0]] + part[1..];
    }
  }

  predicate Trimmed(s: string) { s == "" || (!IsSpace(s[0]) && !IsSpace(s[|s| - 1])) }

  lemma StripSpaced(s: string)
    ensures Strip(" " + s) == Strip(s)
  {
    assert (" " + s)[1..] == s;
  }

  lemma StripTrimmed(s: string)
    requires Trimmed(s)
    ensures Strip(s) == s
  {
  }

  function AsSet(s: seq<string>): set<string> { set x | x in s }

  /** Strictly ascending: sorted by `compareText` and free of repeats. */
  ghost predicate Ascending(s: seq<string>) {
    forall i, j :: 0 <= i < j < |s| ==> Less(s[i], s[j])
  }

  predicate IsLeast(x: string, s: set<string>) {
    x in s && forall y :: y in s && y != x ==> Less(x, y)
  }

  lemma {:induction false} LeastExists(s: set<string>) returns (least: string)
    requires s != {}
    ensures IsLeast(least, s)
  {
    var y :| y in s;
    if s == {y} {
      least := y;
    } else {
      var m := LeastExists(s - {y});
      LessTotal(m, y);
      least := if Less(m, y) then m else y;
      forall x | x in s && x != least ensures Less(least, x) {
        if least == y && x != m { LessTransitive(y, m, x); }
      }
    }
  }

  lemma LeastUnique(s: set<string>, a: string, b: string)
    requires IsLeast(a, s) && IsLeast(b, s)
    ensures a == b
  {
    LessTotal(a, b);
  }

  function Least(s: set<string>): (r: string)
    requires s != {}
    ensures IsLeast(r, s)
  {
    LeastIsDefined(s);
    var x :| x in s && IsLeast(x, s);
    x
  }

  lemma LeastIsDefined(s: set<string>)
    requires s != {}
    ensures exists x :: IsLeast(x, s)
    ensures forall a, b :: IsLeast(a, s) && IsLeast(b, s) ==> a == b
  {
    var least := LeastExists(s);
    forall a, b | IsLeast(a, s) && IsLeast(b, s) ensures a == b { LeastUnique(s, a, b); }
  }

  /** The ids of `s` in `compareText` order. */
  function SortedIds(s: set<string>): (r: seq<string>)
    ensures |r| == |s|
  {
    if s == {} then []
    else [Least(s)] + SortedIds(s - {Least(s)})
  }

  lemma {:induction false} SortedIdsElements(s: set<string>)
    ensures forall x :: x in SortedIds(s) <==> x in s
  {
    if s == {} {
    } else {
      var rest := s - {Least(s)};
      SortedIdsElements(rest);
      assert forall x :: x in SortedIds(s) <==> x == Least(s) || x in SortedIds(rest);
    }
  }

  lemma PrependAscending(x: string, s: seq<string>)
    requires Ascending(s) && forall k :: 0 <= k < |s| ==> Less(x, s[k])
    ensures Ascending([x] + s)
  {
    var r := [x] + s;
    assert forall k :: 0 < k < |r| ==> r[k] == s[k - 1];
  }

  lemma {:induction false} SortedIdsAscending(s: set<string>)
    ensures Ascending(SortedIds(s))
  {
    if s == {} {
    } else {
      var rest := s - {Least(s)};
      SortedIdsAscending(rest);
      SortedIdsElements(rest);
      forall k | 0 <= k < |SortedIds(rest)| ensures Less(Least(s), SortedIds(rest)[k]) {
        assert SortedIds(rest)[k] in rest;
      }
      PrependAscending(Least(s), SortedIds(rest));
    }
  }

  /** An ascending sequence is determined by its elements. */
  lemma {:induction false} AscendingUnique(a: seq<string>, b: seq<string>)
    requires Ascending(a) && Ascending(b)
    requires forall x :: x in a <==> x in b
    ensures a == b
  {
    assert a == [] || a[0] in b;
    assert b == [] || b[0] in a;
    if a == [] || b == [] {
    } else {
      LessTotal(a[0], b[0]);
      assert a[0] == b[0];
      forall x ensures x in a[1..] <==> x in b[1..] {
        TailMembers(a, x);
        TailMembers(b, x);
      }
      AscendingUnique(a[1..], b[1..]);
      assert a == [a[0]] + a[1..] && b == [b[0]] + b[1..];
    }
  }

  lemma TailMembers(a: seq<string>, x: string)
    requires a != [] && Ascending(a)
    ensures x in a[1..] <==> x in a && x != a[0]
  {
    LessTotal(a[0], a[0]);
    assert a == [a[0]] + a[1..];
  }

  /** `[...map.values()].sort((a, b) => compareText(a.id, b.id))` for a map keyed by id. */
  function SortedValues<T>(m: map<string, T>): (r: seq<T>)
    ensures |r| == |m|
  {
    var ids := SortedIds(m.Keys);
    seq(|ids|, i requires 0 <= i < |ids| => SortedIdsElements(m.Keys); assert ids[i] in m.Keys; m[ids[i]])
  }

  lemma SortedValuesAt<T>(m: map<string, T>)
    ensures |SortedValues(m)| == |SortedIds(m.Keys)|
    ensures forall i :: 0 <= i < |SortedValues(m)| ==>
      SortedIds(m.Keys)[i] in m && SortedValues(m)[i] == m[SortedIds(m.Keys)[i]]
  {
    SortedIdsElements(m.Keys);
    var ids := SortedIds(m.Keys);
    forall i | 0 <= i < |ids| ensures ids[i] in m {
      assert ids[i] in ids;
    }
  }

  ghost predicate NoRepeats(s: seq<string>) {
    forall i, j :: 0 <= i < j < |s| ==> s[i] != s[j]
  }

  lemma PushNew(ids: seq<string>, id: string)
    requires NoRepeats(ids) && id !in AsSet(ids)
    ensures NoRepeats(ids + [id]) && AsSet(ids + [id]) == AsSet(ids) + {id}
  {
    assert forall i :: 0 <= i < |ids| ==> ids[i] in AsSet(ids);
  }

  lemma {:induction false} NoRepeatsSize(s: seq<string>)
    requires NoRepeats(s)
    ensures |AsSet(s)| == |s|
  {
    if s == [] {
    } else {
      var front, last := s[..|s| - 1], s[|s| - 1];
      NoRepeatsSize(front);
      assert s == front + [last];
      assert AsSet(s) == AsSet(front) + {last};
      assert forall i :: 0 <= i < |front| ==> front[i] == s[i] && s[i] != s[|s| - 1];
      assert last !in front;
    }
  }

  /** `ids.sort(compareText)`, for ids that do not repeat. */
  function SortTexts(ids: seq<string>): (r: seq<string>)
    requires NoRepeats(ids)
    ensures |r| == |ids| && r == SortedIds(AsSet(ids))
  {
    NoRepeatsSize(ids);
    SortedIds(AsSet(ids))
  }

  lemma AsSetOfSortedIds(s: set<string>)
    ensures AsSet(SortedIds(s)) == s
  {
    SortedIdsElements(s);
  }
}
