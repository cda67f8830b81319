/** The recording script re-reads its own lock: when regenerating it is a fixed point
    (scripts/record-dependency-hashes.py). */
module LockReading {
  import opened Texts
  import opened Lock
  import opened LockLaws

  const HASH_OPTION := "--hash="
  const OPTION_NAME := "--hash"

  /** The one kind of name the script cannot read back. */
  predicate EndsLikeTheOption(name: string) { |name| >= 6 && name[|name| - 6..] == OPTION_NAME }

  lemma HashOptionAt(p: Pin, k: nat)
    requires WellFormed(p)
    ensures At(PinLine(p), k, HASH_OPTION) <==> EndsLikeTheOption(p.name) && k == |p.name| - 6
  {
    var line, n := PinLine(p), |p.name|;
    assert line[..n] == p.name;
    if k + 7 <= |line| {
      var slice := line[k..k + 7];
      assert slice[5] == line[k + 5] && slice[6] == line[k + 6];
      EqualsSigns(p, k + 5);
      EqualsSigns(p, k + 6);
      assert HASH_OPTION[5] == 'h' && HASH_OPTION[6] == '=';
      if k + 6 == n {
        assert slice == p.name[k..] + "=" by { assert p.name[k..] == line[k..n]; }
        assert HASH_OPTION[..6] == "--hash" && slice[..6] == p.name[k..];
        assert "--hash" + "=" == HASH_OPTION;
      }
    }
  }

  lemma FindNowhere(s: string, part: string)
    requires part != "" && forall k: nat :: !At(s, k, part)
    ensures Find(s, part) == |s|
  {
  }

  lemma FindOnly(s: string, part: string, at: nat)
    requires part != "" && At(s, at, part) && forall k: nat :: At(s, k, part) ==> k == at
    ensures Find(s, part) == at
  {
    var r := Find(s, part);
    assert at < r ==> !At(s, at, part);
  }

  lemma NoBackslash(s: string)
    requires s != "" && s[|s| - 1] != '\\'
    ensures RightStripped(s, '\\') == s && RightStripped(s + "\\", '\\') == s
  {
    assert (s + "\\")[..|s|] == s;
  }

  lemma PartitionOfSpec(p: Pin)
    requires WellFormed(p)
    ensures Partition(Spec(p)) == (p.name, p.version)
  {
    var s, n := Spec(p), |p.name|;
    assert s[n..n + 2] == "==" && s[..n] == p.name && s[n + 2..] == p.version;
    forall k: nat | At(s, k, "==") ensures k == n {
      assert s[k..k + 2][0] == s[k] && s[k..k + 2][1] == s[k + 1];
      assert PinLine(p)[k] == s[k] && PinLine(p)[k + 1] == s[k + 1];
      EqualsSigns(p, k);
      EqualsSigns(p, k + 1);
    }
    FindOnly(s, "==", n);
  }

  lemma PartitionWithoutEquals(s: string)
    requires All(s, NameChar)
    ensures Partition(s) == (s, "")
  {
    forall k: nat ensures !At(s, k, "==") {
      if k + 2 <= |s| { assert s[k..k + 2][0] == s[k] && NameChar(s[k]); }
    }
    FindNowhere(s, "==");
    assert s[..|s|] == s;
  }

  lemma GoodUpto(p: Pin)
    requires WellFormed(p) && !EndsLikeTheOption(p.name)
    ensures Upto(PinLine(p), HASH_OPTION) == PinLine(p)
  {
    var line := PinLine(p);
    forall k: nat ensures !At(line, k, HASH_OPTION) { HashOptionAt(p, k); }
    FindNowhere(line, HASH_OPTION);
  }

  lemma ReadsGoodPinLine(p: Pin)
    requires WellFormed(p) && !EndsLikeTheOption(p.name)
    ensures !Skipped(PinLine(p)) && Requirement(PinLine(p)) == (p.name, p.version)
  {
    GoodUpto(p);
    SkippedExactly(p);
    StripPinLine(p);
    assert PinLine(p) == Spec(p) + " " + "\\";
    NoBackslash(Spec(p) + " ");
    SpecOfPinLine(p);
    PartitionOfSpec(p);
  }

  lemma NameCharAt(p: Pin, i: nat)
    requires WellFormed(p) && i < |p.name|
    ensures NameChar(p.name[i])
  {
  }

  lemma PlainFront(p: Pin, n: nat)
    requires WellFormed(p) && n <= |p.name|
    ensures var front := p.name[..n];
      All(front, NameChar) && Trimmed(front) && (front != "" ==> front[|front| - 1] != '\\')
  {
    forall i | 0 <= i < n ensures NameChar(p.name[..n][i]) { NameCharAt(p, i); }
    if n > 0 {
      NameCharAt(p, 0);
      NameCharAt(p, n - 1);
    }
  }

  lemma PlainRequirement(front: string)
    requires All(front, NameChar) && Trimmed(front) && (front != "" ==> front[|front| - 1] != '\\')
    ensures Partition(Strip(RightStripped(Strip(front), '\\'))) == (front, "")
  {
    StripTrimmed(front);
    if front != "" { NoBackslash(front); }
    PartitionWithoutEquals(front);
  }

  lemma BadUpto(p: Pin)
    requires WellFormed(p) && EndsLikeTheOption(p.name)
    ensures Upto(PinLine(p), HASH_OPTION) == p.name[..|p.name| - 6]
  {
    var line, n := PinLine(p), |p.name| - 6;
    HashOptionAt(p, n);
    forall k: nat | At(line, k, HASH_OPTION) ensures k == n { HashOptionAt(p, k); }
    FindOnly(line, HASH_OPTION, n);
    assert line[..|p.name|] == p.name;
  }

  lemma StartsIsAt(s: string, prefix: string)
    ensures StartsWith(s, prefix) <==> At(s, 0, prefix)
  {
    if |prefix| <= |s| { assert s[0..0 + |prefix|] == s[..|prefix|]; }
  }

  lemma IsNoComment(p: Pin)
    requires WellFormed(p)
    ensures PinLine(p) != "" && !StartsWith(PinLine(p), "#")
  {
    StripPinLine(p);
    Differs(PinLine(p), "#", 0);
  }

  lemma SkippedExactly(p: Pin)
    requires WellFormed(p)
    ensures Skipped(PinLine(p)) <==> EndsLikeTheOption(p.name) && |p.name| == 6
  {
    IsNoComment(p);
    HashOptionAt(p, 0);
    StartsIsAt(PinLine(p), HASH_OPTION);
  }

  lemma ReadsBadPinLine(p: Pin)
    requires WellFormed(p) && EndsLikeTheOption(p.name)
    ensures Skipped(PinLine(p)) <==> p.name == OPTION_NAME
    ensures Requirement(PinLine(p)).1 == ""
  {
    BadUpto(p);
    PlainFront(p, |p.name| - 6);
    PlainRequirement(p.name[..|p.name| - 6]);
    SkippedExactly(p);
    assert |p.name| == 6 ==> p.name[0..] == p.name;
  }

  function Both(a: Reading, b: Reading): Reading {
    if a.Err? then a else if b.Err? then b else Ok(a.value + b.value)
  }

  lemma BothThenLine(a: Reading, b: Reading, line: string)
    requires a.Ok? || b.Ok?
    ensures a.Ok? ==> ReadLine(Both(a, b), line) == Both(a, ReadLine(b, line))
    ensures a.Err? ==> ReadLine(Both(a, b), line) == a
  {
    var stripped := Strip(line);
    if a.Ok? && b.Ok? { assert a.value + (b.value + [Requirement(stripped)]) == a.value + b.value + [Requirement(stripped)]; }
  }

  lemma {:induction false} ReadAppend(a: seq<string>, b: seq<string>)
    ensures ReadLines(a + b) == Both(ReadLines(a), ReadLines(b))
  {
    if b == [] {
      assert a + b == a;
      if ReadLines(a).Ok? { assert ReadLines(a).value + [] == ReadLines(a).value; }
    } else {
      var front, last := b[..|b| - 1], b[|b| - 1];
      assert (a + b)[..|a + b| - 1] == a + front && (a + b)[|a + b| - 1] == last;
      ReadAppend(a, front);
      if ReadLines(a).Ok? || ReadLines(front).Ok? { BothThenLine(ReadLines(a), ReadLines(front), last); }
    }
  }

  /** What the script recovers from the three lines of one pin. */
  function ReadOne(p: Pin): Result<seq<(string, string)>, LockError> {
    if !EndsLikeTheOption(p.name) then Ok([(p.name, p.version)])
    else if p.name == OPTION_NAME then Ok([])
    else Err(NotAnExactPin)
  }

  lemma SkipsCommentAndHash(p: Pin)
    requires WellFormed(p)
    ensures Skipped(Strip(FileLine(p))) && Skipped(Strip(HashLine(p)))
  {
    StripFileLine(p);
    StripHashLine(p);
    assert (HASH_PREFIX + p.sha256)[..7] == HASH_PREFIX[..7] == HASH_OPTION;
  }

  lemma ReadThree(a: string, b: string, c: string)
    ensures ReadLines([a, b, c]) == ReadLine(ReadLine(ReadLine(Ok([]), a), b), c)
  {
    assert [a, b, c][..2] == [a, b] && [a, b][..1] == [a] && [a][..0] == [];
    assert ReadLines([a]) == ReadLine(Ok([]), a);
    assert ReadLines([a, b]) == ReadLine(ReadLines([a]), b);
  }

  lemma ReadPinLine(p: Pin)
    requires WellFormed(p)
    ensures ReadLine(Ok([]), PinLine(p)) == ReadOne(p)
  {
    StripPinLine(p);
    if EndsLikeTheOption(p.name) { ReadsBadPinLine(p); } else { ReadsGoodPinLine(p); }
    assert [] + [(p.name, p.version)] == [(p.name, p.version)];
  }

  lemma ReadsBlock(p: Pin)
    requires WellFormed(p)
    ensures ReadLines([FileLine(p), PinLine(p), HashLine(p)]) == ReadOne(p)
  {
    SkipsCommentAndHash(p);
    ReadPinLine(p);
    ReadThree(FileLine(p), PinLine(p), HashLine(p));
  }

  predicate Refused(p: Pin) { EndsLikeTheOption(p.name) && p.name != OPTION_NAME }

  /** The pins that are not silently skipped. */
  function Kept(pins: seq<Pin>): seq<Pin> {
    if pins == [] then [] else (if pins[0].name == OPTION_NAME then [] else [pins[0]]) + Kept(pins[1..])
  }

  predicate NoOptionName(pins: seq<Pin>) { pins == [] || (pins[0].name != OPTION_NAME && NoOptionName(pins[1..])) }

  lemma {:induction false} KeptLength(pins: seq<Pin>)
    ensures |Kept(pins)| <= |pins|
    ensures |Kept(pins)| == |pins| <==> NoOptionName(pins)
    ensures NoOptionName(pins) ==> Kept(pins) == pins
  {
    if pins == [] {
    } else {
      KeptLength(pins[1..]);
      assert pins == [pins[0]] + pins[1..];
    }
  }

  lemma {:induction false} KeptArePins(pins: seq<Pin>, i: nat)
    requires i < |Kept(pins)|
    ensures Kept(pins)[i] in pins
  {
    if pins[0].name == OPTION_NAME {
      assert Kept(pins) == Kept(pins[1..]);
      KeptArePins(pins[1..], i);
    } else if i > 0 {
      assert Kept(pins)[i] == Kept(pins[1..])[i - 1];
      KeptArePins(pins[1..], i - 1);
    }
  }

  lemma {:induction false} NoOptionNameExactly(pins: seq<Pin>)
    ensures NoOptionName(pins) <==> forall i :: 0 <= i < |pins| ==> pins[i].name != OPTION_NAME
  {
    if pins == [] {
    } else {
      NoOptionNameExactly(pins[1..]);
      assert forall i :: 0 < i < |pins| ==> pins[i] == pins[1..][i - 1];
      assert forall i :: 0 <= i < |pins| - 1 ==> pins[1..][i] == pins[i + 1];
    }
  }

  function Names(pins: seq<Pin>): seq<(string, string)> {
    seq(|pins|, i requires 0 <= i < |pins| => (pins[i].name, pins[i].version))
  }

  predicate AnyRefused(pins: seq<Pin>) { pins != [] && (Refused(pins[0]) || AnyRefused(pins[1..])) }

  lemma {:induction false} AnyRefusedExactly(pins: seq<Pin>)
    ensures AnyRefused(pins) <==> exists i :: 0 <= i < |pins| && Refused(pins[i])
  {
    if pins == [] {
    } else {
      AnyRefusedExactly(pins[1..]);
      assert forall i :: 0 < i < |pins| ==> pins[i] == pins[1..][i - 1];
      if AnyRefused(pins[1..]) {
        var i :| 0 <= i < |pins| - 1 && Refused(pins[1..][i]);
        assert Refused(pins[i + 1]);
      }
    }
  }

  ghost function Recovered(pins: seq<Pin>): Reading {
    if AnyRefused(pins) then Err(NotAnExactPin) else Ok(Names(Kept(pins)))
  }

  lemma NamesOneMore(p: Pin, rest: seq<Pin>)
    ensures Names([p] + rest) == [(p.name, p.version)] + Names(rest)
  {
  }

  lemma KeptOneMore(pins: seq<Pin>)
    requires pins != []
    ensures Names(Kept(pins)) ==
      (if pins[0].name == OPTION_NAME then [] else [(pins[0].name, pins[0].version)]) + Names(Kept(pins[1..]))
  {
    var p, rest := pins[0], Kept(pins[1..]);
    assert Kept(pins) == (if p.name == OPTION_NAME then [] else [p]) + rest;
    if p.name == OPTION_NAME {
      assert [] + rest == rest && [] + Names(rest) == Names(rest);
    } else {
      NamesOneMore(p, rest);
    }
  }

  lemma OptionIsUnreadable(name: string)
    ensures name == OPTION_NAME ==> EndsLikeTheOption(name)
  {
    if name == OPTION_NAME { assert name[0..] == name; }
  }

  /** What a pin that is not refused contributes. */
  function Contribution(p: Pin): seq<(string, string)> {
    if p.name == OPTION_NAME then [] else [(p.name, p.version)]
  }

  lemma ContributesExactly(p: Pin)
    ensures ReadOne(p) == if Refused(p) then Err(NotAnExactPin) else Ok(Contribution(p))
  {
    OptionIsUnreadable(p.name);
  }

  lemma NamesAfterOne(pins: seq<Pin>)
    requires pins != []
    ensures Names(Kept(pins)) == Contribution(pins[0]) + Names(Kept(pins[1..]))
  {
    KeptOneMore(pins);
  }

  lemma RecoveredOneMore(pins: seq<Pin>)
    requires pins != []
    ensures Recovered(pins) == Both(ReadOne(pins[0]), Recovered(pins[1..]))
  {
    ContributesExactly(pins[0]);
    NamesAfterOne(pins);
    var any, anyLater := AnyRefused(pins), AnyRefused(pins[1..]);
    assert any == (Refused(pins[0]) || anyLater);
  }

  lemma {:induction false} ReadsPins(pins: seq<Pin>)
    requires AllWellFormed(pins)
    ensures ReadLines(LinesOf(pins)) == Recovered(pins)
  {
    if pins == [] {
      assert Names(Kept(pins)) == [];
    } else {
      var p, rest := pins[0], pins[1..];
      ReadsBlock(p);
      ReadsPins(rest);
      ReadAppend([FileLine(p), PinLine(p), HashLine(p)], LinesOf(rest));
      RecoveredOneMore(pins);
    }
  }

  lemma ReadsEmptyText()
    ensures ReadLines(PythonLines("\n")) == Ok([])
  {
    assert "\n"[1..] == "" && SplitOn("\n", '\n') == [""] + [""];
    assert PythonLines("\n") == [""];
    assert [""][..0] == [];
  }

  lemma ScriptReads(pins: seq<Pin>)
    requires AllWellFormed(pins)
    ensures ReadLines(PythonLines(Rendered(pins))) == Recovered(pins)
  {
    if pins == [] {
      assert Rendered(pins) == "\n";
      ReadsEmptyText();
      assert Names(Kept(pins)) == [];
    } else {
      RenderedLines(pins);
      var lines := LinesOf(pins);
      assert (lines + [""])[..|lines|] == lines;
      ReadsPins(pins);
    }
  }

  ghost predicate Readable(pins: seq<Pin>) { forall i :: 0 <= i < |pins| ==> !EndsLikeTheOption(pins[i].name) }

  /** The script recovers the pins it printed exactly when no name ends in the option's text. */
  lemma ScriptReadsBackExactly(pins: seq<Pin>)
    requires AllWellFormed(pins)
    ensures ReadLines(PythonLines(Rendered(pins))) == Ok(Names(pins)) <==> Readable(pins)
  {
    ScriptReads(pins);
    ReadableExactly(pins);
    KeptLength(pins);
    assert |Names(Kept(pins))| == |Kept(pins)| && |Names(pins)| == |pins|;
  }

  lemma ReadableExactly(pins: seq<Pin>)
    ensures Readable(pins) <==> !AnyRefused(pins) && NoOptionName(pins)
  {
    AnyRefusedExactly(pins);
    NoOptionNameExactly(pins);
    if Readable(pins) {
      forall i | 0 <= i < |pins| ensures pins[i].name != OPTION_NAME && !Refused(pins[i]) {
        OptionIsUnreadable(pins[i].name);
      }
    }
    if !AnyRefused(pins) && NoOptionName(pins) {
      forall i | 0 <= i < |pins| ensures !EndsLikeTheOption(pins[i].name) { assert !Refused(pins[i]); }
    }
  }

  lemma ChosenAgain(pins: seq<Pin>, choose: (string, string) -> (string, string))
    requires forall i :: 0 <= i < |pins| ==> (pins[i].filename, pins[i].sha256) == choose(pins[i].name, pins[i].version)
    ensures Chosen(Names(pins), choose) == pins
  {
  }

  /** Different pins print differently. */
  lemma PrintingIsInjective(a: seq<Pin>, b: seq<Pin>)
    requires AllWellFormed(a) && AllWellFormed(b) && Rendered(a) == Rendered(b)
    ensures a == b
  {
    PolicyReadsWhatWasPrinted(a);
    PolicyReadsWhatWasPrinted(b);
    assert |a| == |EntriesFor(a)| == |b|;
    forall i | 0 <= i < |a| ensures a[i] == b[i] {
      assert EntryFor(a[i]) == EntriesFor(a)[i] == EntryFor(b[i]);
    }
  }

  /** Regenerating a lock whose artifacts the index still chooses is a fixed point exactly
      when every name can be read back. */
  lemma RegeneratingIsAFixedPointExactly(pins: seq<Pin>, choose: (string, string) -> (string, string))
    requires AllWellFormed(pins)
    requires forall i :: 0 <= i < |pins| ==> (pins[i].filename, pins[i].sha256) == choose(pins[i].name, pins[i].version)
    ensures Regenerated(Rendered(pins), choose) == Ok(Rendered(pins)) <==> Readable(pins)
  {
    ScriptReads(pins);
    ReadableExactly(pins);
    KeptLength(pins);
    var kept := Kept(pins);
    forall i | 0 <= i < |kept|
      ensures WellFormed(kept[i]) && (kept[i].filename, kept[i].sha256) == choose(kept[i].name, kept[i].version)
    {
      KeptArePins(pins, i);
    }
    ChosenAgain(kept, choose);
    if Rendered(kept) == Rendered(pins) { PrintingIsInjective(kept, pins); }
  }

  /** A name the policy admits and the script cannot read back. */
  lemma SomeNameIsUnreadable()
    ensures var p := Pin("a--hash", "1", "a", seq(64, i => '0')); WellFormed(p) && !Readable([p])
  {
    var p := Pin("a--hash", "1", "a", seq(64, i => '0'));
    assert p.name[1..] == "--hash";
    assert EndsLikeTheOption([p][0].name);
  }
}
