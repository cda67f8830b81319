/** What a private review is: src/core/feedback.js. */
module Feedback {
  import opened Texts

  datatype FeedbackError =
    | UnknownField | InvalidFieldType | RatingOutOfRange | RatingNotHalfStar
    | CommentTooLong | TagEmpty | TagTooLong | TooManyTags | UnsupportedControlCharacter
    | InvalidBookId | InvalidTimestamp | RevisionConflict | RecordNotFound
    | AccountMismatch | AggregateLimitExceeded | SealerFailure

  type Instant = int

  /** A validated Save payload. */
  datatype Payload = Payload(
    overallRating: Option<real>, storyRating: Option<real>, narrationRating: Option<real>,
    comment: Option<string>, tags: seq<string>)

  datatype Record = Record(
    bookId: string, payload: Payload, createdAt: Instant, updatedAt: Instant,
    revision: string, generation: nat)

  const ABSENT_REVISION := "rev-0-absent"

  function Digit(n: nat): char
    requires n < 10
  { "0123456789"[n] }

  function Decimal(n: nat): (r: string) {
    if n < 10 then [Digit(n)] else Decimal(n / 10) + [Digit(n % 10)]
  }

  /** `rev-${generation}-${random hex}`. */
  function IssueRevision(generation: nat, hex: string): string {
    "rev-" + Decimal(generation) + "-" + hex
  }

  predicate IsDigit(c: char) { '0' <= c <= '9' }

  function LeadingDigits(s: string): string {
    if s == "" || !IsDigit(s[0]) then "" else [s[0]] + LeadingDigits(s[1..])
  }

  function DecimalValue(s: string): nat
    requires forall c :: c in s ==> IsDigit(c)
  {
    if s == "" then 0
    else
      var last := s[|s| - 1];
      assert IsDigit(last);
      10 * DecimalValue(s[..|s| - 1]) + (last as int - '0' as int)
  }

  lemma {:induction false} LeadingDigitsAreDigits(s: string)
    ensures forall c :: c in LeadingDigits(s) ==> IsDigit(c)
  {
    if s == "" || !IsDigit(s[0]) {
    } else {
      LeadingDigitsAreDigits(s[1..]);
    }
  }

  /** The generation a revision token names, read back from its text alone. */
  function TokenGeneration(token: string): nat {
    if |token| < 4 then 0
    else LeadingDigitsAreDigits(token[4..]); DecimalValue(LeadingDigits(token[4..]))
  }

  lemma LastDigit(front: string, d: nat)
    requires d < 10 && forall c :: c in front ==> IsDigit(c)
    ensures forall c :: c in front + [Digit(d)] ==> IsDigit(c)
    ensures DecimalValue(front + [Digit(d)]) == 10 * DecimalValue(front) + d
  {
    var s := front + [Digit(d)];
    assert s[..|s| - 1] == front && s[|s| - 1] == Digit(d);
    assert Digit(d) as int == '0' as int + d;
  }

  lemma {:induction false} DecimalIsDigits(n: nat)
    ensures forall c :: c in Decimal(n) ==> IsDigit(c)
    ensures DecimalValue(Decimal(n)) == n
  {
    if n < 10 {
    } else {
      DecimalIsDigits(n / 10);
      LastDigit(Decimal(n / 10), n % 10);
    }
  }

  lemma {:induction false} LeadingDigitsOfConcat(digits: string, rest: string)
    requires forall c :: c in digits ==> IsDigit(c)
    requires rest == "" || !IsDigit(rest[0])
    ensures LeadingDigits(digits + rest) == digits
  {
    if digits == "" {
      assert digits + rest == rest;
    } else {
      assert (digits + rest)[1..] == digits[1..] + rest;
      LeadingDigitsOfConcat(digits[1..], rest);
    }
  }

  /** The random part plays no role: a token names its generation, and no issued
      token is the absent one. */
  lemma TokenNamesGeneration(generation: nat, hex: string)
    ensures TokenGeneration(IssueRevision(generation, hex)) == generation
    ensures TokenGeneration(ABSENT_REVISION) == 0
    ensures generation > 0 ==> IssueRevision(generation, hex) != ABSENT_REVISION
  {
    DecimalIsDigits(generation);
    DecimalIsDigits(0);
    LeadingDigitsOfConcat(Decimal(generation), "-" + hex);
    LeadingDigitsOfConcat("0", "-absent");
    assert IssueRevision(generation, hex)[4..] == Decimal(generation) + ("-" + hex);
    assert ABSENT_REVISION[4..] == "0" + "-absent";
    assert Decimal(0) == "0";
  }
}
