/** Validating a save: `validateRating`, `validateComment`, `validateTags` and
    `validateFeedbackInput` of src/core/feedback.js. Texts are sequences of code points;
    Unicode normalization and case folding are given functions. */
module Validation {
  import opened Texts
  import opened Feedback

  const COMMENT_CODE_POINTS := 4000
  const MAX_TAGS := 20
  const TAG_CODE_POINTS := 40

  datatype Unicode = Unicode(nfc: string -> string, fold: string -> string)

  /** What Unicode Standard Annex #15 says of normalization form C, as far as it is used: it is
      idempotent and kept by every part of a normalized text; and it makes no comma. */
  ghost predicate Lawful(u: Unicode) {
    && (forall s :: u.nfc(u.nfc(s)) == u.nfc(s))
    && (forall s, i, j :: 0 <= i <= j <= |s| && u.nfc(s) == s ==> u.nfc(s[i..j]) == s[i..j])
    && (forall s :: Lacks(s, ',') ==> Lacks(u.nfc(s), ','))
  }

  predicate IsUnsupported(c: char) {
    var n := c as int;
    || n <= 8 || n == 11 || n == 12 || 14 <= n <= 31 || 127 <= n <= 159
    || 0x200b <= n <= 0x200f || 0x202a <= n <= 0x202e || 0x2060 <= n <= 0x2064 || 0x2066 <= n <= 0x2069 || n == 0xfeff
  }

  predicate HasControls(s: string) { exists i :: 0 <= i < |s| && IsUnsupported(s[i]) }

  // ---- Raw values ------------------------------------------------------------

  datatype RawRating = NoRating | NotARating | Rating(value: real)
  datatype RawText = NoText | NotAText | Text(s: string)
  datatype RawTags = NoTags | NotTags | Tags(items: seq<RawText>)

  datatype RawPayload = RawPayload(
    overallRating: RawRating, storyRating: RawRating, narrationRating: RawRating, comment: RawText, tags: RawTags)

  // ---- The validators -----------------------------------------------------------

  function ValidRating(r: RawRating): Result<Option<real>, FeedbackError> {
    match r
    case NoRating => Ok(None)
    case NotARating => Err(InvalidFieldType)
    case Rating(v) =>
      if v < 0.5 || v > 5.0 then Err(RatingOutOfRange)
      else if (v * 2.0).Floor as real != v * 2.0 then Err(RatingNotHalfStar)
      else Ok(Some(v))
  }

  function ValidComment(u: Unicode, r: RawText): Result<Option<string>, FeedbackError> {
    match r
    case NoText => Ok(None)
    case NotAText => Err(InvalidFieldType)
    case Text(s) =>
      if HasControls(u.nfc(s)) then Err(UnsupportedControlCharacter)
      else if |u.nfc(s)| > COMMENT_CODE_POINTS then Err(CommentTooLong)
      else Ok(if u.nfc(s) == "" then None else Some(u.nfc(s)))
  }

  function Display(u: Unicode, s: string): string { Strip(u.nfc(s)) }

  function TagError(u: Unicode, r: RawText): Option<FeedbackError> {
    if !r.Text? then Some(InvalidFieldType)
    else if HasControls(Display(u, r.s)) then Some(UnsupportedControlCharacter)
    else if Display(u, r.s) == "" then Some(TagEmpty)
    else if |Display(u, r.s)| > TAG_CODE_POINTS then Some(TagTooLong)
    else None
  }

  /** Displays by fold key; the first display of a key stays. */
  function ByKey(u: Unicode, items: seq<RawText>): Result<map<string, string>, FeedbackError> {
    if items == [] then Ok(map[])
    else
      var before, last := ByKey(u, items[..|items| - 1]), items[|items| - 1];
      if before.Err? then before
      else if TagError(u, last).Some? then Err(TagError(u, last).value)
      else
        var display := Display(u, last.s);
        if u.fold(display) in before.value then before else Ok(before.value[u.fold(display) := display])
  }

  function ValidTags(u: Unicode, r: RawTags): Result<seq<string>, FeedbackError> {
    match r
    case NoTags => Ok([])
    case NotTags => Err(InvalidFieldType)
    case Tags(items) =>
      var byKey := ByKey(u, items);
      if byKey.Err? then Err(byKey.error)
      else if |byKey.value| > MAX_TAGS then Err(TooManyTags)
      else Ok(SortedValues(byKey.value))
  }

  method ValidateTags(u: Unicode, value: RawTags) returns (r: Result<seq<string>, FeedbackError>)
    ensures r == ValidTags(u, value)
  {
    if value.NoTags? { return Ok([]); }
    if value.NotTags? { return Err(InvalidFieldType); }
    var items := value.items;
    var byKey: map<string, string> := map[];
    for i := 0 to |items|
      invariant ByKey(u, items[..i]) == Ok(byKey)
    {
      assert items[..i + 1][..i] == items[..i];
      var failed := TagError(u, items[i]);
      if failed.Some? {
        FirstBadTagDecides(u, items, i + 1);
        return Err(failed.value);
      }
      var display := Display(u, items[i].s);
      var key := u.fold(display);
      if key !in byKey { byKey := byKey[key := display]; }
    }
    assert items[..|items|] == items;
    if |byKey| > MAX_TAGS { return Err(TooManyTags); }
    r := Ok(SortedValues(byKey));
  }

  lemma {:induction false} FirstBadTagDecides(u: Unicode, items: seq<RawText>, i: nat)
    requires i <= |items| && ByKey(u, items[..i]).Err?
    ensures ByKey(u, items) == ByKey(u, items[..i])
    decreases |items| - i
  {
    if i == |items| {
      assert items[..i] == items;
    } else {
      assert items[..i + 1][..i] == items[..i];
      FirstBadTagDecides(u, items, i + 1);
    }
  }

  function ValidInput(u: Unicode, raw: RawPayload): Result<Payload, FeedbackError> {
    var overall, story, narration :=
      ValidRating(raw.overallRating), ValidRating(raw.storyRating), ValidRating(raw.narrationRating);
    var comment, tags := ValidComment(u, raw.comment), ValidTags(u, raw.tags);
    if overall.Err? then Err(overall.error)
    else if story.Err? then Err(story.error)
    else if narration.Err? then Err(narration.error)
    else if comment.Err? then Err(comment.error)
    else if tags.Err? then Err(tags.error)
    else Ok(Payload(overall.value, story.value, narration.value, comment.value, tags.value))
  }

  // ---- Canonical values: what validation returns -------------------------------------

  predicate CanonicalTag(u: Unicode, t: string) {
    Display(u, t) == t && t != "" && !HasControls(t) && |t| <= TAG_CODE_POINTS
  }

  /** Canonical tags, in strict order of their fold keys. */
  ghost predicate CanonicalTags(u: Unicode, tags: seq<string>) {
    && |tags| <= MAX_TAGS
    && (forall i :: 0 <= i < |tags| ==> CanonicalTag(u, tags[i]))
    && KeysAscend(u, tags)
  }

  lemma StripIsPart(s: string) returns (i: nat, j: nat)
    ensures i <= j <= |s| && Strip(s) == s[i..j]
    ensures Trimmed(Strip(s))
  {
    i := TrimLeftDrops(s);
    var k := TrimRightDrops(TrimLeft(s));
    j := i + k;
    assert s[i..][..k] == s[i..j];
  }

  lemma {:induction false} TrimLeftDrops(s: string) returns (i: nat)
    ensures i <= |s| && TrimLeft(s) == s[i..] && (TrimLeft(s) == "" || !IsSpace(TrimLeft(s)[0]))
  {
    if s == "" || !IsSpace(s[0]) {
      i := 0;
    } else {
      var n := TrimLeftDrops(s[1..]);
      i := n + 1;
      assert s[1..][n..] == s[i..];
    }
  }

  lemma {:induction false} TrimRightDrops(s: string) returns (j: nat)
    ensures j <= |s| && TrimRight(s) == s[..j] && (j == 0 || !IsSpace(s[j - 1]))
  {
    if s == "" || !IsSpace(s[|s| - 1]) {
      j := |s|;
    } else {
      j := TrimRightDrops(s[..|s| - 1]);
      assert s[..|s| - 1][..j] == s[..j];
    }
  }

  lemma DisplayIsFixed(u: Unicode, s: string)
    requires Lawful(u)
    ensures Display(u, Display(u, s)) == Display(u, s)
    ensures Lacks(s, ',') ==> Lacks(Display(u, s), ',')
  {
    var n := u.nfc(s);
    var i, j := StripIsPart(n);
    assert u.nfc(n) == n;
    assert u.nfc(n[i..j]) == n[i..j];
    assert Strip(Strip(n)) == Strip(n);
  }

  ghost predicate KeyedDisplays(u: Unicode, m: map<string, string>) {
    forall k :: k in m ==> u.fold(m[k]) == k && CanonicalTag(u, m[k])
  }

  lemma {:induction false} ByKeyIsKeyed(u: Unicode, items: seq<RawText>)
    requires Lawful(u) && ByKey(u, items).Ok?
    ensures KeyedDisplays(u, ByKey(u, items).value)
  {
    if items == [] {
    } else {
      ByKeyIsKeyed(u, items[..|items| - 1]);
      DisplayIsFixed(u, items[|items| - 1].s);
    }
  }

  lemma SortedDisplaysAreCanonical(u: Unicode, m: map<string, string>)
    requires KeyedDisplays(u, m) && |m| <= MAX_TAGS
    ensures CanonicalTags(u, SortedValues(m))
  {
    SortedIdsAscending(m.Keys);
    SortedValuesAt(m);
  }

  function Raw(tags: seq<string>): seq<RawText> { seq(|tags|, i requires 0 <= i < |tags| => Text(tags[i])) }

  function KeyMap(u: Unicode, tags: seq<string>): map<string, string> {
    if tags == [] then map[]
    else KeyMap(u, tags[..|tags| - 1])[u.fold(tags[|tags| - 1]) := tags[|tags| - 1]]
  }

  ghost function Folds(u: Unicode, tags: seq<string>): seq<string> {
    seq(|tags|, i requires 0 <= i < |tags| => u.fold(tags[i]))
  }

  lemma {:induction false} KeyMapKeys(u: Unicode, tags: seq<string>)
    ensures KeyMap(u, tags).Keys == AsSet(Folds(u, tags))
  {
    if tags == [] {
    } else {
      var n := |tags| - 1;
      KeyMapKeys(u, tags[..n]);
      assert Folds(u, tags) == Folds(u, tags[..n]) + [u.fold(tags[n])];
    }
  }

  ghost predicate KeysAscend(u: Unicode, tags: seq<string>) {
    forall i, j :: 0 <= i < j < |tags| ==> Less(u.fold(tags[i]), u.fold(tags[j]))
  }

  lemma KeysDiffer(u: Unicode, tags: seq<string>, i: nat, j: nat)
    requires KeysAscend(u, tags) && i < j < |tags|
    ensures u.fold(tags[i]) != u.fold(tags[j])
  {
    LessTotal(u.fold(tags[i]), u.fold(tags[j]));
  }

  lemma {:induction false} KeyMapAt(u: Unicode, tags: seq<string>, i: nat)
    requires KeysAscend(u, tags) && i < |tags|
    ensures u.fold(tags[i]) in KeyMap(u, tags) && KeyMap(u, tags)[u.fold(tags[i])] == tags[i]
  {
    var n := |tags| - 1;
    if i == n {
    } else {
      assert tags[..n][i] == tags[i];
      KeyMapAt(u, tags[..n], i);
      KeysDiffer(u, tags, i, n);
    }
  }

  lemma NewKey(u: Unicode, tags: seq<string>)
    requires tags != [] && KeysAscend(u, tags)
    ensures u.fold(tags[|tags| - 1]) !in KeyMap(u, tags[..|tags| - 1])
  {
    var n := |tags| - 1;
    KeyMapKeys(u, tags[..n]);
    forall i | 0 <= i < n ensures Folds(u, tags[..n])[i] != u.fold(tags[n]) { KeysDiffer(u, tags, i, n); }
  }

  lemma {:induction false} ByKeyOfCanonical(u: Unicode, tags: seq<string>)
    requires forall i :: 0 <= i < |tags| ==> CanonicalTag(u, tags[i])
    requires KeysAscend(u, tags)
    ensures ByKey(u, Raw(tags)) == Ok(KeyMap(u, tags))
  {
    if tags == [] {
    } else {
      var n := |tags| - 1;
      assert Raw(tags)[..n] == Raw(tags[..n]);
      ByKeyOfCanonical(u, tags[..n]);
      NewKey(u, tags);
      assert CanonicalTag(u, tags[n]) && TagError(u, Text(tags[n])).None?;
    }
  }

  lemma AscendingIds(s: set<string>, ids: seq<string>)
    requires Ascending(ids) && AsSet(ids) == s
    ensures SortedIds(s) == ids
  {
    SortedIdsAscending(s);
    SortedIdsElements(s);
    assert forall x :: x in ids <==> x in AsSet(ids);
    AscendingUnique(SortedIds(s), ids);
  }

  lemma ValuesInOrder(m: map<string, string>, ids: seq<string>, values: seq<string>)
    requires SortedIds(m.Keys) == ids && |values| == |ids|
    requires forall i :: 0 <= i < |ids| ==> ids[i] in m && m[ids[i]] == values[i]
    ensures SortedValues(m) == values
  {
    SortedValuesAt(m);
  }

  /** Canonical tags come back as they are. */
  lemma CanonicalTagsAreFixed(u: Unicode, tags: seq<string>)
    requires CanonicalTags(u, tags)
    ensures ValidTags(u, Tags(Raw(tags))) == Ok(tags)
  {
    var m := KeyMap(u, tags);
    ByKeyOfCanonical(u, tags);
    SortedKeyMap(u, tags);
    assert |m| == |tags|;
  }

  lemma SortedKeyMap(u: Unicode, tags: seq<string>)
    requires KeysAscend(u, tags)
    ensures SortedValues(KeyMap(u, tags)) == tags
  {
    var m, folds := KeyMap(u, tags), Folds(u, tags);
    KeyMapKeys(u, tags);
    forall i | 0 <= i < |tags| ensures folds[i] in m && m[folds[i]] == tags[i] { KeyMapAt(u, tags, i); }
    AscendingIds(m.Keys, folds);
    ValuesInOrder(m, folds, tags);
  }

  /** What validation returns is canonical, and validation returns it unchanged. */
  lemma ValidTagsAreCanonical(u: Unicode, raw: RawTags)
    requires Lawful(u) && ValidTags(u, raw).Ok?
    ensures CanonicalTags(u, ValidTags(u, raw).value)
    ensures ValidTags(u, Tags(Raw(ValidTags(u, raw).value))) == ValidTags(u, raw)
  {
    if raw.Tags? {
      ByKeyIsKeyed(u, raw.items);
      SortedDisplaysAreCanonical(u, ByKey(u, raw.items).value);
    }
    CanonicalTagsAreFixed(u, ValidTags(u, raw).value);
  }

  function RawOf(r: Option<real>): RawRating { if r.None? then NoRating else Rating(r.value) }
  function RawComment(c: Option<string>): RawText { if c.None? then NoText else Text(c.value) }

  /** What validation accepts, read back as input. */
  function RawPayloadOf(p: Payload): RawPayload {
    RawPayload(RawOf(p.overallRating), RawOf(p.storyRating), RawOf(p.narrationRating), RawComment(p.comment), Tags(Raw(p.tags)))
  }

  lemma RatingIsFixed(raw: RawRating)
    requires ValidRating(raw).Ok?
    ensures ValidRating(RawOf(ValidRating(raw).value)) == ValidRating(raw)
  {
  }

  /** An input is valid exactly when each of its parts is. */
  lemma ValidByParts(u: Unicode, raw: RawPayload, p: Payload)
    ensures ValidInput(u, raw) == Ok(p) <==>
      && ValidRating(raw.overallRating) == Ok(p.overallRating)
      && ValidRating(raw.storyRating) == Ok(p.storyRating)
      && ValidRating(raw.narrationRating) == Ok(p.narrationRating)
      && ValidComment(u, raw.comment) == Ok(p.comment)
      && ValidTags(u, raw.tags) == Ok(p.tags)
  {
  }

  /** Validation is idempotent: what it returned, it returns again. */
  lemma ValidationIsIdempotent(u: Unicode, raw: RawPayload)
    requires Lawful(u) && ValidInput(u, raw).Ok?
    ensures ValidInput(u, RawPayloadOf(ValidInput(u, raw).value)) == ValidInput(u, raw)
    ensures CanonicalTags(u, ValidInput(u, raw).value.tags)
  {
    var p := ValidInput(u, raw).value;
    ValidByParts(u, raw, p);
    RatingIsFixed(raw.overallRating);
    RatingIsFixed(raw.storyRating);
    RatingIsFixed(raw.narrationRating);
    CommentIsFixed(u, raw.comment);
    ValidTagsAreCanonical(u, raw.tags);
    ValidByParts(u, RawPayloadOf(p), p);
  }

  lemma CommentIsFixed(u: Unicode, raw: RawText)
    requires Lawful(u) && ValidComment(u, raw).Ok?
    ensures ValidComment(u, RawComment(ValidComment(u, raw).value)) == ValidComment(u, raw)
  {
    if raw.Text? { assert u.nfc(u.nfc(raw.s)) == u.nfc(raw.s); }
  }

  // ---- Which tags come back -------------------------------------------------------

  /** The place of the first tag with its fold key. */
  ghost predicate FirstOfKey(u: Unicode, items: seq<RawText>, i: nat) {
    && i < |items| && items[i].Text?
    && forall j :: 0 <= j < i && items[j].Text? ==> u.fold(Display(u, items[j].s)) != u.fold(Display(u, items[i].s))
  }

  lemma FirstOfKeyInFront(u: Unicode, items: seq<RawText>, n: nat, i: nat)
    requires i < n <= |items|
    ensures FirstOfKey(u, items[..n], i) <==> FirstOfKey(u, items, i)
  {
    assert forall j :: 0 <= j <= i ==> items[..n][j] == items[j];
  }

  /** Every key of a tag maps to the display of its first tag. */
  lemma {:induction false} ByKeyKeepsFirst(u: Unicode, items: seq<RawText>, i: nat)
    requires ByKey(u, items).Ok? && i < |items|
    ensures items[i].Text? && u.fold(Display(u, items[i].s)) in ByKey(u, items).value
    ensures FirstOfKey(u, items, i) ==> ByKey(u, items).value[u.fold(Display(u, items[i].s))] == Display(u, items[i].s)
  {
    var n := |items| - 1;
    if i < n {
      FirstOfKeyInFront(u, items, n, i);
      ByKeyKeepsFirst(u, items[..n], i);
    } else if u.fold(Display(u, items[n].s)) in ByKey(u, items[..n]).value {
      var j := ByKeyComesFrom(u, items[..n], u.fold(Display(u, items[n].s)));
      assert items[..n][j] == items[j];
    }
  }

  lemma {:induction false} ByKeyComesFrom(u: Unicode, items: seq<RawText>, key: string) returns (i: nat)
    requires ByKey(u, items).Ok? && key in ByKey(u, items).value
    ensures FirstOfKey(u, items, i) && u.fold(Display(u, items[i].s)) == key
    ensures ByKey(u, items).value[key] == Display(u, items[i].s)
  {
    var n := |items| - 1;
    if key in ByKey(u, items[..n]).value {
      i := ByKeyComesFrom(u, items[..n], key);
      FirstOfKeyInFront(u, items, n, i);
    } else {
      i := n;
      forall j | 0 <= j < n && items[j].Text? ensures u.fold(Display(u, items[j].s)) != key {
        ByKeyKeepsFirst(u, items[..n], j);
        assert items[..n][j] == items[j];
      }
    }
  }

  lemma ValuesAre(m: map<string, string>, t: string)
    ensures t in SortedValues(m) <==> exists key :: key in m && m[key] == t
  {
    SortedValuesAt(m);
    SortedIdsElements(m.Keys);
    if key :| key in m && m[key] == t {
      var k :| 0 <= k < |SortedIds(m.Keys)| && SortedIds(m.Keys)[k] == key;
      assert SortedValues(m)[k] == t;
    }
    if t in SortedValues(m) {
      var k :| 0 <= k < |SortedValues(m)| && SortedValues(m)[k] == t;
      assert m[SortedIds(m.Keys)[k]] == t;
    }
  }

  /** The tag is the display of the first tag of its fold key. */
  ghost predicate IsFirstDisplay(u: Unicode, items: seq<RawText>, i: nat, t: string) {
    FirstOfKey(u, items, i) && t == Display(u, items[i].s)
  }

  /** Exactly the first tags of their fold keys come back, each as its display. */
  lemma TagsComeBackExactly(u: Unicode, items: seq<RawText>, t: string)
    requires ValidTags(u, Tags(items)).Ok?
    ensures t in ValidTags(u, Tags(items)).value <==> exists i: nat :: IsFirstDisplay(u, items, i, t)
  {
    var m := ByKey(u, items).value;
    ValuesAre(m, t);
    if key :| key in m && m[key] == t {
      var i := ByKeyComesFrom(u, items, key);
      assert IsFirstDisplay(u, items, i, t);
    }
    if i: nat :| IsFirstDisplay(u, items, i, t) {
      ByKeyKeepsFirst(u, items, i);
      assert u.fold(t) in m && m[u.fold(t)] == t;
    }
  }

  /** A tag that cannot be one: the reasons in the order they are given. */
  lemma TagIsRefusedExactly(u: Unicode, r: RawText)
    ensures TagError(u, r).None? <==>
      r.Text? && 1 <= |Display(u, r.s)| <= 40 && forall i :: 0 <= i < |Display(u, r.s)| ==> !IsUnsupported(Display(u, r.s)[i])
  {
  }

  /** Tags are accepted exactly if each is one and no more than twenty remain. */
  lemma TagsAreValidExactly(u: Unicode, items: seq<RawText>)
    ensures ByKey(u, items).Ok? <==> forall i :: 0 <= i < |items| ==> TagError(u, items[i]).None?
    ensures ValidTags(u, Tags(items)).Ok? <==> ByKey(u, items).Ok? && |ByKey(u, items).value| <= 20
  {
    ByKeyFailsExactly(u, items);
  }

  lemma {:induction false} ByKeyFailsExactly(u: Unicode, items: seq<RawText>)
    ensures ByKey(u, items).Ok? <==> forall i :: 0 <= i < |items| ==> TagError(u, items[i]).None?
  {
    if items == [] {
    } else {
      var n := |items| - 1;
      ByKeyFailsExactly(u, items[..n]);
      assert forall i :: 0 <= i < n ==> items[..n][i] == items[i];
    }
  }

  /** A rating is one of the ten half stars, or none. */
  lemma RatingIsValidExactly(r: RawRating)
    ensures ValidRating(r).Ok? <==> r.NoRating? || (r.Rating? && exists k: int :: 1 <= k <= 10 && r.value == HalfStars(k))
    ensures ValidRating(r).Ok? ==> ValidRating(r).value == if r.Rating? then Some(r.value) else None
  {
    if r.Rating? && ValidRating(r).Ok? { assert r.value == HalfStars((r.value * 2.0).Floor); }
    if r.Rating? {
      forall k: int | 1 <= k <= 10 && r.value == HalfStars(k) ensures ValidRating(r).Ok? { assert r.value * 2.0 == k as real; }
    }
  }

  function HalfStars(k: int): real { k as real / 2.0 }

  /** A comment is kept normalized if it has no control character and at most 4000 characters; an
      empty one is none. */
  lemma CommentIsValidExactly(u: Unicode, r: RawText)
    ensures ValidComment(u, r).Ok? <==> r.NoText? || (r.Text? && |u.nfc(r.s)| <= 4000 && !HasControls(u.nfc(r.s)))
    ensures ValidComment(u, r).Ok? ==>
      ValidComment(u, r).value == if r.Text? && u.nfc(r.s) != "" then Some(u.nfc(r.s)) else None
  {
  }
}
