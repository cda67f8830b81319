/** Author and narrator groups pair each person id with a name by position, but the names
    of a row are sorted on their own (`names` of src/core/library.js, `groupRows` of
    ui/js/private-store.js). When that pairing is right. */
module Labels {
  import opened Texts
  import opened Ordering
  import opened Grouping

  function TextOrder(): (string, string) -> int { (a: string, b: string) => CompareText(a, b) }

  function NamesOf(ids: seq<string>, personName: string -> string): seq<string> {
    seq(|ids|, i requires 0 <= i < |ids| => personName(ids[i]))
  }

  /** The names a row shows for its author ids. */
  function RowNames(ids: seq<string>, personName: string -> string): (r: seq<string>)
    ensures |r| == |ids|
  {
    SortBy(NamesOf(ids, personName), TextOrder())
  }

  lemma TextOrderIsTotal(items: seq<string>)
    ensures TotalOn(items, TextOrder())
  {
    var cmp := TextOrder();
    forall a, b, c | a in items && b in items && c in items
      ensures Ordered(cmp, a, b, c)
    {
      TextsAreConsistent(a, b, c);
    }
  }

  /** The names shown are the names in id order exactly when those were in text order. */
  lemma ShownInIdOrderExactly(ids: seq<string>, personName: string -> string)
    ensures RowNames(ids, personName) == NamesOf(ids, personName) <==> SortedBy(NamesOf(ids, personName), TextOrder())
  {
    var names, shown := NamesOf(ids, personName), RowNames(ids, personName);
    TextOrderIsTotal(names);
    SortSorts(names, TextOrder(), names);
    SortKeepsElements(names, TextOrder());
    if SortedBy(names, TextOrder()) {
      forall y | y in shown ensures y in names { MultisetMembers(shown, names, y); }
      SortedArrangementIsUnique(shown, names, TextOrder(), names);
    }
  }

  /** Every placement of a row names the person it carries. */
  ghost predicate NamedRight(p: seq<Placement>, ids: seq<string>, personName: string -> string) {
    |p| == |ids| && forall i :: 0 <= i < |ids| ==> p[i].personId == Some(ids[i]) && p[i].heading == personName(ids[i])
  }

  lemma PlacementsPair(kind: string, ids: seq<string>, names: seq<string>, labelKey: LabelKey)
    requires ids != [] && |names| == |ids|
    ensures var p := PeoplePlacements(kind, ids, names, labelKey);
      |p| == |ids| && forall i :: 0 <= i < |ids| ==>
        p[i] == Placement(kind + "-label:" + labelKey(names[i]), names[i], Some(ids[i]))
  {
    var p := PeoplePlacements(kind, ids, names, labelKey);
    forall i | 0 <= i < |ids| ensures p[i] == Placement(kind + "-label:" + labelKey(names[i]), names[i], Some(ids[i])) {
      assert NameAt(names, i, "Unknown " + kind) == names[i];
    }
  }

  /** The people of a row are named right exactly when their names, in the order of their
      ids, are already in text order. */
  lemma PeopleAreNamedRightExactly(kind: string, ids: seq<string>, personName: string -> string, labelKey: LabelKey)
    requires ids != []
    ensures NamedRight(PeoplePlacements(kind, ids, RowNames(ids, personName), labelKey), ids, personName)
      <==> SortedBy(NamesOf(ids, personName), TextOrder())
  {
    var names, shown := NamesOf(ids, personName), RowNames(ids, personName);
    ShownInIdOrderExactly(ids, personName);
    PlacementsPair(kind, ids, shown, labelKey);
    if NamedRight(PeoplePlacements(kind, ids, shown, labelKey), ids, personName) {
      forall i | 0 <= i < |ids| ensures shown[i] == names[i] { }
      assert shown == names;
    }
  }

  function TwoNames(): string -> string { (id: string) => if id == "p1" then "Zed" else "Amy" }

  /** The first person, Zed, is filed under the name of the second. */
  lemma PeopleCanBeMisnamed(labelKey: LabelKey)
    ensures PeoplePlacements("author", ["p1", "p2"], RowNames(["p1", "p2"], TwoNames()), labelKey)[0]
      == Placement("author-label:" + labelKey("Amy"), "Amy", Some("p1"))
  {
    var ids, cmp := ["p1", "p2"], TextOrder();
    var names := NamesOf(ids, TwoNames());
    assert "p2"[1] != "p1"[1];
    assert names == ["Zed", "Amy"];
    assert cmp("Zed", "Amy") == 1 by { LessTotal("Amy", "Zed"); assert Less("Amy", "Zed"); }
    assert names[1..] == ["Amy"] && ["Amy"][1..] == [];
    assert SortBy([], cmp) == [];
    assert SortBy(["Amy"], cmp) == ["Amy"];
    assert Insert("Zed", [], cmp) == ["Zed"];
    assert Insert("Zed", ["Amy"], cmp) == ["Amy"] + ["Zed"];
    assert RowNames(ids, TwoNames()) == ["Amy", "Zed"];
    PlacementsPair("author", ids, ["Amy", "Zed"], labelKey);
  }
}
