/** The dependency lock: printed and re-read by `main` of scripts/record-dependency-hashes.py,
    parsed by `parseLock` of scripts/private-alpha-policy.js. */
module Lock {
  import opened Texts

  datatype Pin = Pin(name: string, version: string, filename: string, sha256: string)

  datatype LockEntry = LockEntry(name: string, version: string, filename: Option<string>, hashes: seq<string>)

  datatype LockError = DependencyLockMalformed | NotAnExactPin

  predicate IsAlnum(c: char) { 'a' <= c <= 'z' || 'A' <= c <= 'Z' || '0' <= c <= '9' }
  predicate NameChar(c: char) { IsAlnum(c) || c == '.' || c == '_' || c == '-' }
  predicate VersionChar(c: char) { NameChar(c) || c == '+' || c == '!' }
  predicate HexChar(c: char) { 'a' <= c <= 'f' || '0' <= c <= '9' }

  predicate All(s: string, p: char -> bool) { forall i :: 0 <= i < |s| ==> p(s[i]) }

  predicate IsDigest(s: string) { |s| == 64 && All(s, HexChar) }

  /** What the index and the pattern of the policy check admit. */
  predicate WellFormed(p: Pin) {
    && p.name != "" && All(p.name, NameChar)
    && p.version != "" && All(p.version, VersionChar)
    && Trimmed(p.filename) && All(p.filename, c => ' ' <= c <= '~')
    && IsDigest(p.sha256)
  }

  // ---- Text helpers ---------------------------------------------------------------

  predicate StartsWith(s: string, prefix: string) { |prefix| <= |s| && s[..|prefix|] == prefix }

  predicate At(s: string, k: nat, part: string) { k + |part| <= |s| && s[k..k + |part|] == part }

  /** The first position of `part`, or the length of the text. */
  function Find(s: string, part: string): (r: nat)
    requires part != ""
    ensures r <= |s|
    ensures r < |s| ==> At(s, r, part)
    ensures forall k: nat :: k < r ==> !At(s, k, part)
  {
    if s == "" then 0
    else if StartsWith(s, part) then 0
    else
      var n := Find(s[1..], part) + 1;
      AtTail(s, part);
      n
  }

  lemma AtTail(s: string, part: string)
    requires s != "" && part != ""
    ensures forall k: nat :: k > 0 ==> (At(s, k, part) <==> At(s[1..], k - 1, part))
    ensures At(s, 0, part) <==> StartsWith(s, part)
  {
    forall k: nat | k > 0 ensures At(s, k, part) <==> At(s[1..], k - 1, part) {
      if k + |part| <= |s| { SliceOfTail(s, k, |part|); }
    }
  }

  lemma SliceOfTail(s: string, k: nat, n: nat)
    requires 0 < k && k + n <= |s|
    ensures s[k..k + n] == s[1..][k - 1..k - 1 + n]
  {
    var t := s[1..];
    assert forall j :: 0 <= j < |t| ==> t[j] == s[j + 1];
  }

  function RightStripped(s: string, c: char): string {
    if s != "" && s[|s| - 1] == c then RightStripped(s[..|s| - 1], c) else s
  }

  /** `splitlines` of Python on a text whose only line breaks are newlines. */
  function PythonLines(s: string): seq<string> {
    var lines := SplitOn(s, '\n');
    if lines[|lines| - 1] == "" then lines[..|lines| - 1] else lines
  }

  // ---- The printer -------------------------------------------------------------------

  function Block(p: Pin): string {
    "# " + p.filename + "\n" + p.name + "==" + p.version + " \\\n    --hash=sha256:" + p.sha256
  }

  function Blocks(pins: seq<Pin>): seq<string> { seq(|pins|, i requires 0 <= i < |pins| => Block(pins[i])) }

  function Rendered(pins: seq<Pin>): string { Join(Blocks(pins), "\n") + "\n" }

  // ---- The policy's parser --------------------------------------------------------------

  function RunLength(s: string, p: char -> bool): (r: nat)
    ensures r <= |s| && All(s[..r], p) && (r < |s| ==> !p(s[r]))
  {
    if s == "" || !p(s[0]) then 0
    else
      var r := RunLength(s[1..], p) + 1;
      assert s[..r] == [s[0]] + s[1..][..r - 1];
      r
  }

  /** `^(name)==(version)$`; a name holds no equals sign, so it is the longest run. */
  function MatchPin(s: string): Option<(string, string)> {
    var n := RunLength(s, NameChar);
    if n > 0 && n + 2 < |s| && s[n..n + 2] == "==" && All(s[n + 2..], VersionChar)
    then Some((s[..n], s[n + 2..])) else None
  }

  datatype ParseState = ParseState(entries: seq<LockEntry>, pending: Option<string>)

  function WithoutBackslash(s: string): string {
    if s != "" && s[|s| - 1] == '\\' then s[..|s| - 1] else s
  }

  const HASH_PREFIX := "--hash=sha256:"

  /** `current` is the last entry, once there is one. */
  function ParseLine(s: ParseState, raw: string): Result<ParseState, LockError> {
    var line := Strip(raw);
    if line == "" then Ok(s)
    else if StartsWith(line, "#") then Ok(s.(pending := Some(Strip(line[1..]))))
    else if StartsWith(line, HASH_PREFIX) then
      if s.entries == [] then Err(DependencyLockMalformed)
      else
        var digest := Strip(line[|HASH_PREFIX|..]);
        if !IsDigest(digest) then Err(DependencyLockMalformed)
        else
          var n := |s.entries| - 1;
          Ok(s.(entries := s.entries[..n] + [s.entries[n].(hashes := s.entries[n].hashes + [digest])]))
    else
      var found := MatchPin(Strip(WithoutBackslash(line)));
      if found.None? then Err(DependencyLockMalformed)
      else Ok(ParseState(s.entries + [LockEntry(found.value.0, found.value.1, s.pending, [])], None))
  }

  function ParseLines(s: ParseState, lines: seq<string>): Result<ParseState, LockError>
    decreases |lines|
  {
    if lines == [] then Ok(s)
    else
      var next := ParseLine(s, lines[0]);
      if next.Err? then next else ParseLines(next.value, lines[1..])
  }

  function Parsed(text: string): Result<seq<LockEntry>, LockError> {
    var r := ParseLines(ParseState([], None), SplitOn(text, '\n'));
    if r.Err? then Err(r.error) else Ok(r.value.entries)
  }

  method ParseLock(text: string) returns (r: Result<seq<LockEntry>, LockError>)
    ensures r == Parsed(text)
  {
    var lines := SplitOn(text, '\n');
    var entries: seq<LockEntry>, pending: Option<string> := [], None;
    assert lines[0..] == lines;
    for i := 0 to |lines|
      invariant ParseLines(ParseState([], None), lines) == ParseLines(ParseState(entries, pending), lines[i..])
    {
      assert lines[i..][0] == lines[i] && lines[i..][1..] == lines[i + 1..];
      var line := Strip(lines[i]);
      if line == "" { continue; }
      if StartsWith(line, "#") {
        pending := Some(Strip(line[1..]));
        continue;
      }
      if StartsWith(line, HASH_PREFIX) {
        if entries == [] { return Err(DependencyLockMalformed); }
        var digest := Strip(line[|HASH_PREFIX|..]);
        if !IsDigest(digest) { return Err(DependencyLockMalformed); }
        var n := |entries| - 1;
        entries := entries[..n] + [entries[n].(hashes := entries[n].hashes + [digest])];
        continue;
      }
      var found := MatchPin(Strip(WithoutBackslash(line)));
      if found.None? { return Err(DependencyLockMalformed); }
      entries := entries + [LockEntry(found.value.0, found.value.1, pending, [])];
      pending := None;
    }
    r := Ok(entries);
  }

  // ---- The script's own reader --------------------------------------------------------------

  function Upto(s: string, part: string): string
    requires part != ""
  {
    s[..Find(s, part)]
  }

  /** `partition("==")`. */
  function Partition(s: string): (string, string) {
    var n := Find(s, "==");
    (s[..n], if n < |s| then s[n + 2..] else "")
  }

  function Requirement(stripped: string): (string, string) {
    Partition(Strip(RightStripped(Strip(Upto(stripped, "--hash=")), '\\')))
  }

  predicate Skipped(stripped: string) {
    stripped == "" || StartsWith(stripped, "#") || StartsWith(stripped, "--hash=")
  }

  type Reading = Result<seq<(string, string)>, LockError>

  function ReadLine(before: Reading, line: string): Reading {
    var stripped := Strip(line);
    if before.Err? || Skipped(stripped) then before
    else if Requirement(stripped).0 == "" || Requirement(stripped).1 == "" then Err(NotAnExactPin)
    else Ok(before.value + [Requirement(stripped)])
  }

  function ReadLines(lines: seq<string>): Reading {
    if lines == [] then Ok([]) else ReadLine(ReadLines(lines[..|lines| - 1]), lines[|lines| - 1])
  }

  method ReadPins(text: string) returns (r: Result<seq<(string, string)>, LockError>)
    ensures r == ReadLines(PythonLines(text))
  {
    var lines := PythonLines(text);
    var pinned: seq<(string, string)> := [];
    for i := 0 to |lines|
      invariant ReadLines(lines[..i]) == Ok(pinned)
    {
      assert lines[..i + 1][..i] == lines[..i];
      var stripped := Strip(lines[i]);
      if Skipped(stripped) { continue; }
      var pin := Requirement(stripped);
      if pin.0 == "" || pin.1 == "" {
        ReadingStops(lines, i + 1);
        return Err(NotAnExactPin);
      }
      pinned := pinned + [pin];
    }
    assert lines[..|lines|] == lines;
    r := Ok(pinned);
  }

  lemma {:induction false} ReadingStops(lines: seq<string>, i: nat)
    requires i <= |lines| && ReadLines(lines[..i]).Err?
    ensures ReadLines(lines) == ReadLines(lines[..i])
    decreases |lines| - i
  {
    if i == |lines| {
      assert lines[..i] == lines;
    } else {
      assert lines[..i + 1][..i] == lines[..i];
      ReadingStops(lines, i + 1);
    }
  }

  method RenderPins(pins: seq<(string, string)>, choose: (string, string) -> (string, string)) returns (lines: seq<string>)
    ensures lines == Blocks(Chosen(pins, choose))
  {
    lines := [];
    for i := 0 to |pins|
      invariant |lines| == i && forall k :: 0 <= k < i ==> lines[k] == Block(Chosen(pins, choose)[k])
    {
      var chosen := choose(pins[i].0, pins[i].1);
      lines := lines + [Block(Pin(pins[i].0, pins[i].1, chosen.0, chosen.1))];
    }
  }

  /** Reading the lock, asking the index for each pin, and printing the answers. */
  method Regenerate(text: string, choose: (string, string) -> (string, string)) returns (r: Result<string, LockError>)
    ensures r == Regenerated(text, choose)
  {
    var pinned := ReadPins(text);
    if pinned.Err? { return Err(pinned.error); }
    var lines := RenderPins(pinned.value, choose);
    r := Ok(Join(lines, "\n") + "\n");
  }

  function Chosen(pins: seq<(string, string)>, choose: (string, string) -> (string, string)): seq<Pin> {
    seq(|pins|, i requires 0 <= i < |pins| =>
      Pin(pins[i].0, pins[i].1, choose(pins[i].0, pins[i].1).0, choose(pins[i].0, pins[i].1).1))
  }

  function Regenerated(text: string, choose: (string, string) -> (string, string)): Result<string, LockError> {
    var pinned := ReadLines(PythonLines(text));
    if pinned.Err? then Err(pinned.error) else Ok(Rendered(Chosen(pinned.value, choose)))
  }
}
