/** The review editor: a saved record becomes a draft, a draft becomes a save
    (`draftFromRecord` and `payloadFromDraft` of ui/js/private-store.js). */
module Drafts {
  import opened Texts
  import opened Feedback
  import opened Validation
  import Reviews

  datatype Draft = Draft(
    overallRating: Option<real>, storyRating: Option<real>, narrationRating: Option<real>,
    comment: string, tagsText: string)

  const EMPTY_DRAFT := Draft(None, None, None, "", "")

  function DraftFromRecord(record: Option<Record>): Draft {
    if record.None? then EMPTY_DRAFT
    else
      var p := record.value.payload;
      Draft(p.overallRating, p.storyRating, p.narrationRating,
            if p.comment.Some? then p.comment.value else "", Join(p.tags, ", "))
  }

  /** `map(trim)` and `filter(Boolean)`. */
  function CleanParts(parts: seq<string>): seq<string> {
    if parts == [] then []
    else (if Strip(parts[0]) == "" then [] else [Strip(parts[0])]) + CleanParts(parts[1..])
  }

  function TagsOf(tagsText: string): seq<string> {
    if Strip(tagsText) == "" then [] else CleanParts(SplitOn(tagsText, ','))
  }

  function PayloadFromDraft(d: Draft): RawPayload {
    RawPayload(RawOf(d.overallRating), RawOf(d.storyRating), RawOf(d.narrationRating),
               if d.comment == "" then NoText else Text(d.comment), Tags(Raw(TagsOf(d.tagsText))))
  }

  // ---- Joining and splitting tags ------------------------------------------------

  lemma {:induction false} SplitSpaced(s: string)
    ensures SplitOn(" " + s, ',') == [" " + SplitOn(s, ',')[0]] + SplitOn(s, ',')[1..]
  {
    assert (" " + s)[1..] == s;
  }

  lemma CleanSpaced(parts: seq<string>)
    requires parts != []
    ensures CleanParts([" " + parts[0]] + parts[1..]) == CleanParts(parts)
  {
    var spaced := [" " + parts[0]] + parts[1..];
    StripSpaced(parts[0]);
    assert spaced[1..] == parts[1..];
  }

  ghost predicate PlainTags(tags: seq<string>) {
    forall i :: 0 <= i < |tags| ==> Strip(tags[i]) == tags[i] && tags[i] != "" && Lacks(tags[i], ',')
  }

  lemma {:induction false} LoneTag(tag: string)
    requires Lacks(tag, ',')
    ensures SplitOn(tag, ',') == [tag]
  {
    if tag == "" {
    } else {
      LoneTag(tag[1..]);
      assert tag == [tag[0]] + tag[1..];
    }
  }

  lemma {:induction false} PartsOfJoined(tags: seq<string>)
    requires PlainTags(tags) && tags != []
    ensures CleanParts(SplitOn(Join(tags, ", "), ',')) == tags
  {
    var first := tags[0];
    if |tags| == 1 {
      LoneTag(first);
      assert [first][1..] == [];
      assert tags == [first];
    } else {
      var rest := tags[1..];
      var joined := Join(rest, ", ");
      PartsOfJoined(rest);
      assert Join(tags, ", ") == first + [','] + (" " + joined);
      SplitFirst(first, ',', " " + joined);
      SplitSpaced(joined);
      CleanSpaced(SplitOn(joined, ','));
      var parts := SplitOn(" " + joined, ',');
      assert ([first] + parts)[1..] == parts;
      assert tags == [first] + rest;
    }
  }

  lemma StripOfLeading(s: string)
    requires s != "" && !IsSpace(s[0])
    ensures Strip(s) != ""
  {
    var j := TrimRightDrops(s);
    assert TrimLeft(s) == s;
    KeepsFirst(s);
  }

  lemma {:induction false} KeepsFirst(s: string)
    requires s != "" && !IsSpace(s[0])
    ensures TrimRight(s) != ""
  {
    if !IsSpace(s[|s| - 1]) {
    } else {
      KeepsFirst(s[..|s| - 1]);
    }
  }

  lemma JoinStarts(tags: seq<string>)
    requires PlainTags(tags) && tags != []
    ensures Join(tags, ", ") != "" && !IsSpace(Join(tags, ", ")[0])
  {
    var i, j := StripIsPart(tags[0]);
    assert Join(tags, ", ")[0] == tags[0][0];
  }

  /** Tags without a comma survive the text field. */
  lemma TagsSurviveTheEditor(tags: seq<string>)
    requires PlainTags(tags)
    ensures TagsOf(Join(tags, ", ")) == tags
  {
    if tags != [] {
      JoinStarts(tags);
      StripOfLeading(Join(tags, ", "));
      PartsOfJoined(tags);
    }
  }

  // ---- No part of a split holds the separator ------------------------------------------

  lemma {:induction false} PartsLackTheSeparator(s: string, c: char)
    ensures forall k :: 0 <= k < |SplitOn(s, c)| ==> Lacks(SplitOn(s, c)[k], c)
  {
    if s == "" {
    } else {
      PartsLackTheSeparator(s[1..], c);
      var rest := SplitOn(s[1..], c);
      assert forall k :: 0 < k < |rest| ==> rest[1..][k - 1] == rest[k];
    }
  }

  lemma {:induction false} CleanPartsLackCommas(parts: seq<string>)
    requires forall k :: 0 <= k < |parts| ==> Lacks(parts[k], ',')
    ensures forall k :: 0 <= k < |CleanParts(parts)| ==> Lacks(CleanParts(parts)[k], ',')
  {
    if parts == [] {
    } else {
      CleanPartsLackCommas(parts[1..]);
      var i, j := StripIsPart(parts[0]);
    }
  }

  lemma EditedTagsLackCommas(tagsText: string)
    ensures forall k :: 0 <= k < |TagsOf(tagsText)| ==> Lacks(TagsOf(tagsText)[k], ',')
  {
    PartsLackTheSeparator(tagsText, ',');
    CleanPartsLackCommas(SplitOn(tagsText, ','));
  }

  lemma {:induction false} DisplaysLackCommas(u: Unicode, tags: seq<string>)
    requires Lawful(u) && ByKey(u, Raw(tags)).Ok?
    requires forall k :: 0 <= k < |tags| ==> Lacks(tags[k], ',')
    ensures forall key :: key in ByKey(u, Raw(tags)).value ==> Lacks(ByKey(u, Raw(tags)).value[key], ',')
  {
    if tags == [] {
    } else {
      var n := |tags| - 1;
      assert Raw(tags)[..n] == Raw(tags[..n]);
      DisplaysLackCommas(u, tags[..n]);
      DisplayIsFixed(u, tags[n]);
    }
  }

  lemma SavedTagsLackCommas(u: Unicode, tagsText: string)
    requires Lawful(u) && ValidTags(u, Tags(Raw(TagsOf(tagsText)))).Ok?
    ensures var tags := ValidTags(u, Tags(Raw(TagsOf(tagsText)))).value;
      forall k :: 0 <= k < |tags| ==> Lacks(tags[k], ',')
  {
    EditedTagsLackCommas(tagsText);
    DisplaysLackCommas(u, TagsOf(tagsText));
    var m := ByKey(u, Raw(TagsOf(tagsText))).value;
    SortedValuesAt(m);
  }

  // ---- Saving unedited ---------------------------------------------------------------

  ghost predicate CommaFree(tags: seq<string>) { forall k :: 0 <= k < |tags| ==> Lacks(tags[k], ',') }

  /** A saved record, loaded into the editor and read back unedited, validates to its own
      payload exactly when none of its tags contains a comma. */
  lemma UneditedDraftIsFaithfulExactly(u: Unicode, raw: RawPayload, record: Record)
    requires Lawful(u) && ValidInput(u, raw) == Ok(record.payload)
    ensures ValidInput(u, PayloadFromDraft(DraftFromRecord(Some(record)))) == Ok(record.payload)
      <==> CommaFree(record.payload.tags)
  {
    var p, draft := record.payload, DraftFromRecord(Some(record));
    ValidationIsIdempotent(u, raw);
    CommentSurvives(u, raw.comment);
    if CommaFree(p.tags) {
      assert PlainTags(p.tags) by { CanonicalIsPlain(u, p.tags); }
      TagsSurviveTheEditor(p.tags);
    } else if ValidTags(u, Tags(Raw(TagsOf(draft.tagsText)))).Ok? {
      SavedTagsLackCommas(u, draft.tagsText);
    }
  }

  lemma CommentSurvives(u: Unicode, raw: RawText)
    requires ValidComment(u, raw).Ok?
    ensures ValidComment(u, raw).value != Some("")
  {
  }

  lemma CanonicalIsPlain(u: Unicode, tags: seq<string>)
    requires CanonicalTags(u, tags) && CommaFree(tags) && Lawful(u)
    ensures PlainTags(tags)
  {
    forall i | 0 <= i < |tags| ensures Strip(tags[i]) == tags[i] {
      assert CanonicalTag(u, tags[i]);
      var a, b := StripIsPart(u.nfc(tags[i]));
    }
  }

  /** In the store: opening the editor on an active review and saving it unedited is a no-op,
      with the same token and generation, exactly when no tag contains a comma. */
  lemma UneditedSaveIsNoOpExactly(
    u: Unicode, t: Reviews.Table, key: Reviews.Key, raw: RawPayload, now: Option<Instant>, hex: string)
    requires Lawful(u) && Reviews.TableOk(t) && Reviews.IsBookId(key.bookId)
    requires key in t && !t[key].deleted
    requires ValidInput(u, raw) == Ok(t[key].payload.value.record.payload)
    ensures var record := t[key].payload.value.record;
      var begun := Reviews.BeginSave(t, key, ValidInput(u, PayloadFromDraft(DraftFromRecord(Some(record)))), t[key].revision);
      (begun.Ok? && Reviews.FinishOpen(t, begun.value, true, now, hex)
                      == Reviews.NoChange(Reviews.Saved(record, t[key].revision, t[key].generation, true)))
      <==> CommaFree(record.payload.tags)
  {
    var record := t[key].payload.value.record;
    UneditedDraftIsFaithfulExactly(u, raw, record);
    assert Reviews.RowOk(key, t[key]);
    Reviews.OpenStoredRow(key, Some(t[key]));
  }

  /** Whatever the reader enters, each rating is saved as it was shown, and an empty comment as none. */
  lemma EditedDraftIsSaved(u: Unicode, d: Draft)
    requires ValidInput(u, PayloadFromDraft(d)).Ok?
    ensures
      var p := ValidInput(u, PayloadFromDraft(d)).value;
      && p.overallRating == d.overallRating && p.storyRating == d.storyRating && p.narrationRating == d.narrationRating
      && p.comment == if u.nfc(d.comment) == "" || d.comment == "" then None else Some(u.nfc(d.comment))
  {
    ValidByParts(u, PayloadFromDraft(d), ValidInput(u, PayloadFromDraft(d)).value);
    RatingIsValidExactly(RawOf(d.overallRating));
    RatingIsValidExactly(RawOf(d.storyRating));
    RatingIsValidExactly(RawOf(d.narrationRating));
  }

  /** A tag with a comma comes back as two. */
  lemma CommaSplitsATag()
    ensures TagsOf(Join(["a,b"], ", ")) == ["a", "b"]
  {
    assert Join(["a,b"], ", ") == "a,b";
    assert "a,b" == "a" + [','] + "b";
    SplitFirst("a", ',', "b");
    LoneTag("b");
    assert ["a", "b"] == ["a"] + ["b"] && ["a", "b"][1..] == ["b"] && ["b"][1..] == [];
    assert Strip("a") == "a" && Strip("b") == "b";
    StripOfLeading("a,b");
  }
}
