/** Identity is proven, not guessed: who counts as the same person, and in which roles
    (`_person` and `_contributors` of connector/atnr_connector/normalize.py). */
module NormalizeIdentity {
  import opened Texts
  import opened Normalize
  import Feedback
  import Library

  ghost predicate Injective(d: Digest) { forall a, b :: d(a) == d(b) ==> a == b }

  lemma LastColonAt(a: string, x: string)
    requires forall i :: 0 <= i < |x| ==> x[i] != ':'
    ensures (a + ":" + x)[|a|] == ':'
    ensures forall k :: |a| < k < |a + ":" + x| ==> (a + ":" + x)[k] != ':'
    ensures (a + ":" + x)[..|a|] == a && (a + ":" + x)[|a| + 1..] == x
  {
  }

  lemma SplitAtLastColon(a: string, x: string, b: string, y: string)
    requires a + ":" + x == b + ":" + y
    requires (forall i :: 0 <= i < |x| ==> x[i] != ':') && (forall i :: 0 <= i < |y| ==> y[i] != ':')
    ensures a == b && x == y
  {
    LastColonAt(a, x);
    LastColonAt(b, y);
    assert |a| == |b|;
  }

  lemma NoColonInParts(role: Role, n: nat)
    ensures forall i :: 0 <= i < |RoleName(role)| ==> RoleName(role)[i] != ':'
    ensures forall i :: 0 <= i < |Feedback.Decimal(n)| ==> Feedback.Decimal(n)[i] != ':'
  {
    Feedback.DecimalIsDigits(n);
  }

  /** A title, a role and a position make an occurrence nobody else has, whatever the
      source put into its identifiers. */
  lemma OccurrencesAreUnique(asin1: string, role1: Role, i1: nat, asin2: string, role2: Role, i2: nat)
    requires Occurrence(BookKey(asin1), role1, i1) == Occurrence(BookKey(asin2), role2, i2)
    ensures asin1 == asin2 && role1 == role2 && i1 == i2
  {
    NoColonInParts(role1, i1);
    NoColonInParts(role2, i2);
    Feedback.DecimalIsDigits(i1);
    Feedback.DecimalIsDigits(i2);
    var a, b := BookKey(asin1) + ":" + RoleName(role1), BookKey(asin2) + ":" + RoleName(role2);
    SplitAtLastColon(a, Feedback.Decimal(i1), b, Feedback.Decimal(i2));
    SplitAtLastColon(BookKey(asin1), RoleName(role1), BookKey(asin2), RoleName(role2));
    assert RoleName(role1)[0] == RoleName(role2)[0];
    assert BookKey(asin1)[3..] == asin1 && BookKey(asin2)[3..] == asin2;
  }

  lemma IdentifierIsInjective(d: Digest, kind: string, a: string, b: string)
    requires Injective(d) && Identifier(d, kind, a) == Identifier(d, kind, b)
    ensures a == b
  {
    var prefix := "aud-us-" + kind + "-";
    assert Identifier(d, kind, a)[|prefix|..] == d(a) && Identifier(d, kind, b)[|prefix|..] == d(b);
  }

  /** Two contributors are one person exactly when the source gives both the same identifier;
      without one, a contributor is its own occurrence and never merges. */
  lemma SamePersonExactly(
    d: Digest, a: RawContributor, asin1: string, role1: Role, i1: nat, b: RawContributor, asin2: string, role2: Role, i2: nat)
    requires Injective(d) && a.Contributor? && b.Contributor?
    ensures PersonId(d, a, Occurrence(BookKey(asin1), role1, i1)) == PersonId(d, b, Occurrence(BookKey(asin2), role2, i2))
      <==> Optional(a.asin, 128) == Optional(b.asin, 128)
           && (Optional(a.asin, 128).Some? || (asin1 == asin2 && role1 == role2 && i1 == i2))
  {
    var o1, o2 := Occurrence(BookKey(asin1), role1, i1), Occurrence(BookKey(asin2), role2, i2);
    var x, y := Identity(a, o1), Identity(b, o2);
    if PersonId(d, a, o1) == PersonId(d, b, o2) {
      IdentifierIsInjective(d, "person", x, y);
      assert x[0] == y[0];
      if Optional(a.asin, 128).Some? {
        assert x[12..] == Optional(a.asin, 128).value && y[12..] == Optional(b.asin, 128).value;
      } else {
        assert x[11..] == o1 && y[11..] == o2;
        OccurrencesAreUnique(asin1, role1, i1, asin2, role2, i2);
      }
    }
  }

  // ---- Roles -----------------------------------------------------------------

  predicate HasRole(people: People, id: string, role: Role) { id in people && role in people[id].roles }

  lemma {:induction false} ResolvedRoles(
    d: Digest, raws: seq<RawContributor>, role: Role, key: string, people: People, id: string, other: Role)
    requires ResolvedFrom(d, raws, role, key, people).Ok?
    ensures var r := ResolvedFrom(d, raws, role, key, people).value;
      HasRole(r.people, id, other) <==> HasRole(people, id, other) || (other == role && id in AsSet(r.ids))
  {
    if raws == [] {
    } else {
      ResolvedRoles(d, raws[..|raws| - 1], role, key, people, id, other);
    }
  }

  lemma ContributorRoles(
    d: Digest, list: RawContributors, role: Role, key: string, people: People, id: string, other: Role)
    requires ContributorsOf(d, list, role, key, people).Ok?
    ensures var r := ContributorsOf(d, list, role, key, people).value;
      HasRole(r.people, id, other) <==> HasRole(people, id, other) || (other == role && id in AsSet(r.ids))
  {
    if list.List? { ResolvedRoles(d, list.items, role, key, people, id, other); }
  }

  ghost predicate Credits(books: seq<Library.Book>, id: string, role: Role) {
    exists i :: 0 <= i < |books| && CreditedIn(books[i], id, role)
  }

  lemma CreditsOneMore(books: seq<Library.Book>, id: string, role: Role)
    requires books != []
    ensures Credits(books, id, role) <==>
      Credits(books[..|books| - 1], id, role) || CreditedIn(books[|books| - 1], id, role)
  {
    assert forall i :: 0 <= i < |books| - 1 ==> books[..|books| - 1][i] == books[i];
    if Credits(books[..|books| - 1], id, role) {
      var i :| 0 <= i < |books| - 1 && CreditedIn(books[..|books| - 1][i], id, role);
      assert CreditedIn(books[i], id, role);
    }
  }

  /** A person carries a role exactly when some book lists the person in it. */
  lemma {:induction false} RolesAreCredits(d: Digest, at: int, items: seq<RawRecord>, id: string, role: Role)
    requires Gathered(d, at, items).Ok?
    ensures HasRole(Gathered(d, at, items).value.people, id, role) <==> Credits(Gathered(d, at, items).value.books, id, role)
  {
    if items == [] {
    } else {
      var n := |items| - 1;
      var before := Gathered(d, at, items[..n]).value;
      RolesAreCredits(d, at, items[..n], id, role);
      RecordRoles(d, at, items[n], before, id, role);
      CreditsOneMore(Gathered(d, at, items).value.books, id, role);
    }
  }

  lemma PartsRoles(d: Digest, raw: RawRecord, key: string, people: People, facets: Facets, id: string, role: Role)
    requires raw.RawRecord? && PartsOf(d, raw, key, people, facets).Ok?
    ensures var p := PartsOf(d, raw, key, people, facets).value;
      HasRole(p.narrators.people, id, role) <==>
        HasRole(people, id, role) || id in AsSet(if role.Author? then p.authors.ids else p.narrators.ids)
  {
    var p := PartsOf(d, raw, key, people, facets).value;
    ContributorRoles(d, raw.authors, Author, key, people, id, role);
    ContributorRoles(d, raw.narrators, Narrator, key, p.authors.people, id, role);
  }

  predicate CreditedIn(b: Library.Book, id: string, role: Role) {
    id in (if role.Author? then b.authorIds else b.narratorIds)
  }

  lemma RecordRoles(d: Digest, at: int, raw: RawRecord, s: State, id: string, role: Role)
    requires RecordStep(d, at, raw, s).Ok?
    ensures var next := RecordStep(d, at, raw, s).value;
      && next.books != [] && next.books[..|next.books| - 1] == s.books
      && (HasRole(next.people, id, role) <==>
            HasRole(s.people, id, role) || CreditedIn(next.books[|next.books| - 1], id, role))
  {
    var key := BookKey(Required(raw.asin, 128).value);
    var p := PartsOf(d, raw, key, s.people, s.facets).value;
    PartsRoles(d, raw, key, s.people, s.facets, id, role);
    SortedIdsElements(AsSet(p.authors.ids));
    SortedIdsElements(AsSet(p.narrators.ids));
  }
}
