/** The printed lock is read back: by the policy's parser always, by the script's own reader
    exactly when no name ends with the text of the hash option. */
module LockLaws {
  import opened Texts
  import opened Lock

  function FileLine(p: Pin): string { "# " + p.filename }
  function PinLine(p: Pin): string { p.name + "==" + p.version + " \\" }
  function HashLine(p: Pin): string { "    --hash=sha256:" + p.sha256 }

  function LinesOf(pins: seq<Pin>): seq<string> {
    if pins == [] then [] else [FileLine(pins[0]), PinLine(pins[0]), HashLine(pins[0])] + LinesOf(pins[1..])
  }

  ghost predicate AllWellFormed(pins: seq<Pin>) { forall i :: 0 <= i < |pins| ==> WellFormed(pins[i]) }

  // ---- Splitting what was joined ------------------------------------------------------

  predicate OneLine(s: string) { Lacks(s, '\n') }

  lemma LinesHaveNoBreak(p: Pin)
    requires WellFormed(p)
    ensures OneLine(FileLine(p)) && OneLine(PinLine(p)) && OneLine(HashLine(p))
  {
    assert OneLine("# ") && OneLine("==") && OneLine(" \\") && OneLine("    --hash=sha256:");
    assert OneLine(p.filename) by {
      forall i | 0 <= i < |p.filename| ensures p.filename[i] != '\n' { assert ' ' <= p.filename[i]; }
    }
    assert OneLine(p.name) && OneLine(p.version) && OneLine(p.sha256);
  }

  lemma BlockShape(p: Pin, rest: string)
    ensures Block(p) + "\n" + rest == FileLine(p) + "\n" + (PinLine(p) + "\n" + (HashLine(p) + "\n" + rest))
  {
    var tail := p.sha256 + ("\n" + rest);
    var middle := p.name + "==" + p.version;
    assert " \\\n    --hash=sha256:" == " \\" + "\n" + "    --hash=sha256:";
    assert Block(p) == FileLine(p) + "\n" + PinLine(p) + "\n" + HashLine(p);
  }

  lemma BlockIsThreeLines(p: Pin, rest: string)
    requires WellFormed(p)
    ensures SplitOn(Block(p) + "\n" + rest, '\n') == [FileLine(p), PinLine(p), HashLine(p)] + SplitOn(rest, '\n')
  {
    LinesHaveNoBreak(p);
    var a, b, c := FileLine(p), PinLine(p), HashLine(p);
    var third := c + "\n" + rest;
    var second := b + "\n" + third;
    BlockShape(p, rest);
    SplitFirst(a, '\n', second);
    SplitFirst(b, '\n', third);
    SplitFirst(c, '\n', rest);
  }

  lemma {:induction false} RenderedLines(pins: seq<Pin>)
    requires AllWellFormed(pins) && pins != []
    ensures SplitOn(Rendered(pins), '\n') == LinesOf(pins) + [""]
  {
    var blocks := Blocks(pins);
    if |pins| == 1 {
      assert Rendered(pins) == Block(pins[0]) + "\n" + "";
      BlockIsThreeLines(pins[0], "");
      assert LinesOf(pins[1..]) == [];
    } else {
      assert blocks[1..] == Blocks(pins[1..]);
      assert Rendered(pins) == Block(pins[0]) + "\n" + Rendered(pins[1..]);
      BlockIsThreeLines(pins[0], Rendered(pins[1..]));
      RenderedLines(pins[1..]);
    }
  }

  // ---- What each line strips to ---------------------------------------------------------

  lemma HashLineShape(p: Pin)
    ensures HashLine(p) == " " + (" " + (" " + (" " + (HASH_PREFIX + p.sha256))))
  {
    assert "    --hash=sha256:" == " " + (" " + (" " + (" " + HASH_PREFIX)));
  }

  lemma HashTextIsTrimmed(p: Pin)
    requires WellFormed(p)
    ensures Trimmed(HASH_PREFIX + p.sha256)
  {
    var s := HASH_PREFIX + p.sha256;
    assert s[0] == '-' && s[|s| - 1] == p.sha256[63] && HexChar(p.sha256[63]);
  }

  lemma StripFour(s: string)
    ensures Strip(" " + (" " + (" " + (" " + s)))) == Strip(s)
  {
    StripSpaced(s);
    StripSpaced(" " + s);
    StripSpaced(" " + (" " + s));
    StripSpaced(" " + (" " + (" " + s)));
  }

  lemma StripHashLine(p: Pin)
    requires WellFormed(p)
    ensures Strip(HashLine(p)) == HASH_PREFIX + p.sha256
  {
    HashLineShape(p);
    StripFour(HASH_PREFIX + p.sha256);
    HashTextIsTrimmed(p);
    StripTrimmed(HASH_PREFIX + p.sha256);
  }

  lemma StripFileLine(p: Pin)
    requires WellFormed(p)
    ensures StartsWith(Strip(FileLine(p)), "#") && Strip(Strip(FileLine(p))[1..]) == p.filename
  {
    var line := FileLine(p);
    if p.filename == "" {
      assert line == "# " && line[..1] == "#";
      assert TrimRight("# ") == TrimRight("#") == "#";
      assert "#"[1..] == "";
    } else {
      assert Trimmed(line);
      StripTrimmed(line);
      assert line[1..] == " " + p.filename && (" " + p.filename)[1..] == p.filename;
      assert TrimLeft(" " + p.filename) == TrimLeft(p.filename) == p.filename;
    }
  }

  lemma StripPinLine(p: Pin)
    requires WellFormed(p)
    ensures Strip(PinLine(p)) == PinLine(p)
    ensures PinLine(p)[0] == p.name[0] && NameChar(p.name[0])
  {
    assert PinLine(p)[0] == p.name[0];
    assert PinLine(p)[|PinLine(p)| - 1] == '\\';
  }

  /** `name==version`, as both readers see it. */
  function Spec(p: Pin): string { p.name + "==" + p.version }

  lemma SpecOfPinLine(p: Pin)
    requires WellFormed(p)
    ensures WithoutBackslash(PinLine(p)) == Spec(p) + " " && Strip(Spec(p) + " ") == Spec(p)
  {
    var s := Spec(p);
    assert PinLine(p) == s + " " + "\\";
    assert (s + " ")[..|s|] == s;
    assert s[0] == p.name[0] && s[|s| - 1] == p.version[|p.version| - 1];
    assert TrimLeft(s + " ") == s + " ";
    assert TrimRight(s + " ") == TrimRight(s) == s;
  }

  // ---- The policy's parser -----------------------------------------------------------------

  lemma {:induction false} RunOfName(name: string, rest: string)
    requires All(name, NameChar) && (rest == "" || !NameChar(rest[0]))
    ensures RunLength(name + rest, NameChar) == |name|
  {
    if name == "" {
      assert name + rest == rest;
    } else {
      assert (name + rest)[1..] == name[1..] + rest;
      RunOfName(name[1..], rest);
    }
  }

  lemma MatchesSpec(p: Pin)
    requires WellFormed(p)
    ensures MatchPin(Spec(p)) == Some((p.name, p.version))
  {
    var rest := "==" + p.version;
    assert Spec(p) == p.name + rest;
    RunOfName(p.name, rest);
    assert Spec(p)[..|p.name|] == p.name;
    assert Spec(p)[|p.name|..|p.name| + 2] == "==" && Spec(p)[|p.name| + 2..] == p.version;
  }

  function EntryFor(p: Pin): LockEntry { LockEntry(p.name, p.version, Some(p.filename), [p.sha256]) }

  function EntriesFor(pins: seq<Pin>): seq<LockEntry> { seq(|pins|, i requires 0 <= i < |pins| => EntryFor(pins[i])) }

  lemma ParsesPinLine(p: Pin, s: ParseState)
    requires WellFormed(p)
    ensures ParseLine(s, PinLine(p)) == Ok(ParseState(s.entries + [LockEntry(p.name, p.version, s.pending, [])], None))
  {
    var line := PinLine(p);
    StripPinLine(p);
    SpecOfPinLine(p);
    MatchesSpec(p);
    NotAHashLine(p);
    assert line[..1] != "#";
  }

  /** A pin line never starts with the option that carries a digest: a name has no equals sign
      and the one after the name is followed by another. */
  lemma NotAHashLine(p: Pin)
    requires WellFormed(p)
    ensures !StartsWith(PinLine(p), HASH_PREFIX)
  {
    var line := PinLine(p);
    if |line| >= 8 {
      EqualsSigns(p, 5);
      EqualsSigns(p, 6);
      EqualsSigns(p, 7);
      if line[6] != '=' { Differs(line, HASH_PREFIX, 6); }
      else if line[7] == '=' { Differs(line, HASH_PREFIX, 7); }
      else { Differs(line, HASH_PREFIX, 5); }
    }
  }

  lemma Differs(s: string, prefix: string, k: nat)
    requires k < |s| && k < |prefix| && s[k] != prefix[k]
    ensures !StartsWith(s, prefix)
  {
    if |prefix| <= |s| { assert s[..|prefix|][k] == s[k]; }
  }

  lemma EqualsSigns(p: Pin, k: nat)
    requires WellFormed(p) && k < |PinLine(p)|
    ensures PinLine(p)[k] == '=' <==> k == |p.name| || k == |p.name| + 1
  {
    var line, n := PinLine(p), |p.name|;
    if k < n { assert line[k] == p.name[k]; }
    else if k > n + 1 && k < n + 2 + |p.version| { assert line[k] == p.version[k - n - 2]; }
  }

  lemma ParsesBlock(p: Pin, s: ParseState)
    requires WellFormed(p)
    ensures ParseLines(s, [FileLine(p), PinLine(p), HashLine(p)]) == Ok(ParseState(s.entries + [EntryFor(p)], None))
  {
    StripFileLine(p);
    StripHashLine(p);
    var s1 := s.(pending := Some(p.filename));
    var s2 := ParseState(s.entries + [LockEntry(p.name, p.version, Some(p.filename), [])], None);
    var s3 := ParseState(s.entries + [EntryFor(p)], None);
    assert ParseLine(s, FileLine(p)) == Ok(s1);
    ParsesPinLine(p, s1);
    ParsesHashLine(p, s.entries);
    var lines := [FileLine(p), PinLine(p), HashLine(p)];
    assert lines[1..] == [PinLine(p), HashLine(p)] && lines[1..][1..] == [HashLine(p)] && lines[1..][1..][1..] == [];
    assert ParseLines(s3, []) == Ok(s3);
    assert ParseLines(s2, [HashLine(p)]) == Ok(s3);
    assert ParseLines(s1, lines[1..]) == Ok(s3);
  }

  lemma ParsesHashLine(p: Pin, entries: seq<LockEntry>)
    requires WellFormed(p)
    ensures ParseLine(ParseState(entries + [LockEntry(p.name, p.version, Some(p.filename), [])], None), HashLine(p))
      == Ok(ParseState(entries + [EntryFor(p)], None))
  {
    StripHashLine(p);
    var line, all := HASH_PREFIX + p.sha256, entries + [LockEntry(p.name, p.version, Some(p.filename), [])];
    assert line[..14] == HASH_PREFIX && line[14..] == p.sha256 && line[0] == '-';
    Differs(line, "#", 0);
    assert Trimmed(p.sha256) by { assert HexChar(p.sha256[0]) && HexChar(p.sha256[63]); }
    StripTrimmed(p.sha256);
    assert all[..|entries|] == entries && [] + [p.sha256] == [p.sha256];
  }

  lemma {:induction false} ParseAppend(s: ParseState, a: seq<string>, b: seq<string>)
    ensures ParseLines(s, a + b) ==
      var r := ParseLines(s, a); if r.Err? then r else ParseLines(r.value, b)
    decreases |a|
  {
    if a == [] {
      assert a + b == b;
    } else {
      assert (a + b)[1..] == a[1..] + b;
      var next := ParseLine(s, a[0]);
      if next.Ok? { ParseAppend(next.value, a[1..], b); }
    }
  }

  lemma {:induction false} ParsesPins(pins: seq<Pin>, entries: seq<LockEntry>)
    requires AllWellFormed(pins)
    ensures ParseLines(ParseState(entries, None), LinesOf(pins)) == Ok(ParseState(entries + EntriesFor(pins), None))
  {
    if pins == [] {
      assert entries + EntriesFor(pins) == entries;
    } else {
      var p, s := pins[0], ParseState(entries, None);
      ParsesBlock(p, s);
      ParsesPins(pins[1..], entries + [EntryFor(p)]);
      ParseAppend(s, [FileLine(p), PinLine(p), HashLine(p)], LinesOf(pins[1..]));
      assert entries + [EntryFor(p)] + EntriesFor(pins[1..]) == entries + EntriesFor(pins);
    }
  }

  lemma ParsesEmptyLine(s: ParseState)
    ensures ParseLines(s, [""]) == Ok(s)
  {
    assert [""][1..] == [];
    assert ParseLine(s, "") == Ok(s);
  }

  /** Round trip: the policy check reads from the printed lock exactly the pins it was printed
      from, each with its artifact and its one digest. */
  lemma PolicyReadsWhatWasPrinted(pins: seq<Pin>)
    requires AllWellFormed(pins)
    ensures Parsed(Rendered(pins)) == Ok(EntriesFor(pins))
  {
    if pins == [] {
      ParsesEmptyLock();
      assert EntriesFor(pins) == [];
    } else {
      var start, done := ParseState([], None), ParseState(EntriesFor(pins), None);
      RenderedLines(pins);
      ParsesPins(pins, []);
      assert [] + EntriesFor(pins) == EntriesFor(pins);
      ParseAppend(start, LinesOf(pins), [""]);
      ParsesEmptyLine(done);
    }
  }

  lemma ParsesEmptyLock()
    ensures Parsed(Rendered([])) == Ok([])
  {
    var start := ParseState([], None);
    assert Rendered([]) == "\n" && "\n"[1..] == "";
    assert SplitOn("\n", '\n') == [""] + [""];
    ParseAppend(start, [""], [""]);
    ParsesEmptyLine(start);
  }
}
