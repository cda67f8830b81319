/** Purpose-bound sealing: `seal_purpose` and `unseal_purpose` of
    connector/atnr_connector/custody.py. The protector and the serializer are given
    functions; what is assumed of them is stated where it is used. */
module Custody {
  import opened Texts
  import opened Base64

  const MAX_SNAPSHOT_BYTES := 32 * 1024 * 1024

  function Ascii(s: string): Bytes { seq(|s|, i requires 0 <= i < |s| => if s[i] as int < 256 then s[i] as int as byte else 0) }

  const FILE_MAGIC := Ascii("ATNR-DPAPI-1") + [0 as byte]
  const TAG := Ascii("P2") + [0 as byte]
  const PURPOSE_MAGIC_PREFIX := FILE_MAGIC + TAG

  const PURPOSE_LIBRARY_SNAPSHOT := "library-snapshot"
  const PURPOSE_PRIVATE_REVIEW := "private-review"
  const ENVELOPE_PURPOSES := [PURPOSE_LIBRARY_SNAPSHOT, PURPOSE_PRIVATE_REVIEW]
  const LEGACY_READABLE_PURPOSES := [PURPOSE_LIBRARY_SNAPSHOT]

  datatype CustodyError =
    | EnvelopePurposeInvalid | SnapshotTooLarge | SnapshotEnvelopeInvalid
    | EnvelopePurposeMismatch | SnapshotPayloadInvalid | UnprotectFailed

  /** JSON text of a value, and what reading a text gives. */
  datatype Serializer<!V> = Serializer(dump: V -> Bytes, load: Bytes -> Option<V>)

  datatype Cipher = Cipher(protect: Bytes -> Bytes, unprotect: Bytes -> Option<Bytes>)

  predicate StartsWith(b: Bytes, prefix: Bytes) { |prefix| <= |b| && b[..|prefix|] == prefix }

  function Header(purpose: string): Bytes { PURPOSE_MAGIC_PREFIX + Ascii(purpose) + [0 as byte] }

  function Sealed<V>(value: V, json: Serializer<V>, cipher: Cipher, purpose: string): Result<string, CustodyError> {
    if purpose !in ENVELOPE_PURPOSES then Err(EnvelopePurposeInvalid)
    else if |json.dump(value)| > MAX_SNAPSHOT_BYTES then Err(SnapshotTooLarge)
    else Ok(Encode(Header(purpose) + cipher.protect(json.dump(value))))
  }

  function LegacyAllowed(purpose: string, allow: Option<bool>): bool {
    if allow.Some? then allow.value else purpose in LEGACY_READABLE_PURPOSES
  }

  /** The ciphertext an envelope yields under a purpose. */
  function BodyOf(blob: Bytes, purpose: string, allow: Option<bool>): Result<Bytes, CustodyError> {
    if StartsWith(blob, Header(purpose)) then Ok(blob[|Header(purpose)|..])
    else if StartsWith(blob, PURPOSE_MAGIC_PREFIX) then Err(EnvelopePurposeMismatch)
    else if LegacyAllowed(purpose, allow) && StartsWith(blob, FILE_MAGIC) then Ok(blob[|FILE_MAGIC|..])
    else Err(SnapshotEnvelopeInvalid)
  }

  /** The ciphertext handed to the protector, or why none is. */
  function Handed(encoded: string, purpose: string, allow: Option<bool>): Result<Bytes, CustodyError> {
    if purpose !in ENVELOPE_PURPOSES then Err(EnvelopePurposeInvalid)
    else if |encoded| > MAX_SNAPSHOT_BYTES * 2 then Err(SnapshotEnvelopeInvalid)
    else if Decode(encoded).None? then Err(SnapshotEnvelopeInvalid)
    else BodyOf(Decode(encoded).value, purpose, allow)
  }

  function Opened<V>(plaintext: Option<Bytes>, json: Serializer<V>): Result<V, CustodyError> {
    if plaintext.None? then Err(UnprotectFailed)
    else if |plaintext.value| > MAX_SNAPSHOT_BYTES then Err(SnapshotTooLarge)
    else if json.load(plaintext.value).None? then Err(SnapshotPayloadInvalid)
    else Ok(json.load(plaintext.value).value)
  }

  function Unsealed<V>(encoded: string, json: Serializer<V>, cipher: Cipher, purpose: string, allow: Option<bool>): Result<V, CustodyError> {
    var body := Handed(encoded, purpose, allow);
    if body.Err? then Err(body.error) else Opened(cipher.unprotect(body.value), json)
  }

  /** The protector, with a record of every ciphertext it was asked to open. */
  class Protector {
    const cipher: Cipher
    var handed: seq<Bytes>

    constructor (cipher: Cipher)
      ensures this.cipher == cipher && handed == []
    {
      this.cipher := cipher;
      handed := [];
    }

    method Unprotect(body: Bytes) returns (plaintext: Option<Bytes>)
      modifies this
      ensures plaintext == cipher.unprotect(body) && handed == old(handed) + [body]
    {
      handed := handed + [body];
      plaintext := cipher.unprotect(body);
    }
  }

  /** Nothing reaches the protector unless the header names the expected purpose. */
  method UnsealPurpose<V>(encoded: string, json: Serializer<V>, protector: Protector, purpose: string, allow: Option<bool>)
    returns (r: Result<V, CustodyError>)
    modifies protector
    ensures r == Unsealed(encoded, json, protector.cipher, purpose, allow)
    ensures protector.handed ==
      old(protector.handed) + (if Handed(encoded, purpose, allow).Ok? then [Handed(encoded, purpose, allow).value] else [])
  {
    if purpose !in ENVELOPE_PURPOSES { return Err(EnvelopePurposeInvalid); }
    var header := Header(purpose);
    var allowLegacy := if allow.Some? then allow.value else purpose in LEGACY_READABLE_PURPOSES;
    if |encoded| > MAX_SNAPSHOT_BYTES * 2 { return Err(SnapshotEnvelopeInvalid); }
    var blob := Decode(encoded);
    if blob.None? { return Err(SnapshotEnvelopeInvalid); }
    var body;
    if StartsWith(blob.value, header) {
      body := blob.value[|header|..];
    } else if StartsWith(blob.value, PURPOSE_MAGIC_PREFIX) {
      return Err(EnvelopePurposeMismatch);
    } else if allowLegacy && StartsWith(blob.value, FILE_MAGIC) {
      body := blob.value[|FILE_MAGIC|..];
    } else {
      return Err(SnapshotEnvelopeInvalid);
    }
    var plaintext := protector.Unprotect(body);
    if plaintext.None? { return Err(UnprotectFailed); }
    if |plaintext.value| > MAX_SNAPSHOT_BYTES { return Err(SnapshotTooLarge); }
    var value := json.load(plaintext.value);
    if value.None? { return Err(SnapshotPayloadInvalid); }
    r := Ok(value.value);
  }

  // ---- Headers tell purposes apart ------------------------------------------------------

  lemma PrefixOfConcat(a: Bytes, b: Bytes)
    ensures StartsWith(a + b, a) && (a + b)[|a|..] == b
  {
  }

  lemma HeadersStartWithPrefix(purpose: string, rest: Bytes)
    ensures StartsWith(Header(purpose) + rest, PURPOSE_MAGIC_PREFIX)
    ensures StartsWith(Header(purpose) + rest, FILE_MAGIC)
  {
    var tail := Ascii(purpose) + [0 as byte] + rest;
    assert Header(purpose) + rest == PURPOSE_MAGIC_PREFIX + tail;
    assert Header(purpose) + rest == FILE_MAGIC + (TAG + tail);
    PrefixOfConcat(PURPOSE_MAGIC_PREFIX, tail);
    PrefixOfConcat(FILE_MAGIC, TAG + tail);
  }

  /** The byte after the prefix already tells the two purposes apart. */
  lemma FirstLetter(blob: Bytes, purpose: string)
    requires purpose in ENVELOPE_PURPOSES && StartsWith(blob, Header(purpose))
    ensures |blob| > |PURPOSE_MAGIC_PREFIX|
    ensures blob[|PURPOSE_MAGIC_PREFIX|] == if purpose == PURPOSE_LIBRARY_SNAPSHOT then 108 else 112
  {
    var n, h := |PURPOSE_MAGIC_PREFIX|, Header(purpose);
    assert h[n] == Ascii(purpose)[0] == purpose[0] as int as byte;
    assert blob[..|h|][n] == blob[n];
  }

  /** No envelope carries two purposes. */
  lemma HeaderNamesOnePurpose(blob: Bytes, p: string, q: string)
    requires p in ENVELOPE_PURPOSES && q in ENVELOPE_PURPOSES
    requires StartsWith(blob, Header(p)) && StartsWith(blob, Header(q))
    ensures p == q
  {
    FirstLetter(blob, p);
    FirstLetter(blob, q);
  }

  // ---- The laws of sealing ----------------------------------------------------------------

  ghost predicate Faithful<V(!new)>(json: Serializer<V>, cipher: Cipher) {
    && (forall v :: json.load(json.dump(v)) == Some(v))
    && (forall p :: cipher.unprotect(cipher.protect(p)) == Some(p))
  }

  lemma SealedBody<V>(value: V, json: Serializer<V>, cipher: Cipher, purpose: string)
    requires Sealed(value, json, cipher, purpose).Ok?
    ensures var blob, encoded := Header(purpose) + cipher.protect(json.dump(value)), Sealed(value, json, cipher, purpose).value;
      Decode(encoded) == Some(blob) && |encoded| == 4 * ((|blob| + 2) / 3)
  {
    DecodeEncode(Header(purpose) + cipher.protect(json.dump(value)));
    EncodedLength(Header(purpose) + cipher.protect(json.dump(value)));
  }

  /** The envelope of n bytes is within the size the opener accepts. */
  predicate Fits(n: nat) { (n + 2) / 3 <= MAX_SNAPSHOT_BYTES / 2 }

  lemma FitsExactly(n: nat)
    ensures 4 * ((n + 2) / 3) <= MAX_SNAPSHOT_BYTES * 2 <==> Fits(n)
  {
  }

  lemma OwnPurposeHandsTheBody(encoded: string, body: Bytes, purpose: string, allow: Option<bool>)
    requires purpose in ENVELOPE_PURPOSES && Decode(encoded) == Some(Header(purpose) + body)
    requires |encoded| == 4 * ((|Header(purpose) + body| + 2) / 3)
    ensures Handed(encoded, purpose, allow) == if Fits(|Header(purpose)| + |body|) then Ok(body) else Err(SnapshotEnvelopeInvalid)
  {
    FitsExactly(|Header(purpose) + body|);
    PrefixOfConcat(Header(purpose), body);
  }

  /** A sealed value opens under its own purpose exactly when its envelope, which grows with
      the protector's output, stays within the size the opener accepts. */
  lemma OwnPurposeOpensExactly<V(!new)>(value: V, json: Serializer<V>, cipher: Cipher, purpose: string, allow: Option<bool>)
    requires Faithful(json, cipher) && Sealed(value, json, cipher, purpose).Ok?
    ensures var encoded, body := Sealed(value, json, cipher, purpose).value, cipher.protect(json.dump(value));
      Unsealed(encoded, json, cipher, purpose, allow)
        == if Fits(|Header(purpose)| + |body|) then Ok(value) else Err(SnapshotEnvelopeInvalid)
  {
    SealedBody(value, json, cipher, purpose);
    OwnPurposeHandsTheBody(Sealed(value, json, cipher, purpose).value, cipher.protect(json.dump(value)), purpose, allow);
  }

  /** Under any other purpose it is refused, and no ciphertext reaches the protector. */
  lemma OtherPurposeIsRefused<V>(value: V, json: Serializer<V>, cipher: Cipher, purpose: string, other: string, allow: Option<bool>)
    requires Sealed(value, json, cipher, purpose).Ok? && other != purpose
    ensures var encoded := Sealed(value, json, cipher, purpose).value;
      && Handed(encoded, other, allow).Err?
      && (other in ENVELOPE_PURPOSES && |encoded| <= MAX_SNAPSHOT_BYTES * 2 ==>
            Handed(encoded, other, allow) == Err(EnvelopePurposeMismatch))
  {
    SealedBody(value, json, cipher, purpose);
    var body := cipher.protect(json.dump(value));
    HeadersStartWithPrefix(purpose, body);
    PrefixOfConcat(Header(purpose), body);
    if other in ENVELOPE_PURPOSES && StartsWith(Header(purpose) + body, Header(other)) {
      HeaderNamesOnePurpose(Header(purpose) + body, purpose, other);
    }
  }

  /** Whatever the envelope, at most one purpose opens it, unless legacy reading was forced. */
  lemma OnePurposePerEnvelope(encoded: string, p: string, q: string)
    requires Handed(encoded, p, None).Ok? && Handed(encoded, q, None).Ok?
    ensures p == q
  {
    var blob := Decode(encoded).value;
    if StartsWith(blob, Header(p)) && StartsWith(blob, Header(q)) { HeaderNamesOnePurpose(blob, p, q); }
    if StartsWith(blob, Header(p)) || StartsWith(blob, Header(q)) {
      TaggedIsTagged(blob, p);
      TaggedIsTagged(blob, q);
    }
  }

  lemma TaggedIsTagged(blob: Bytes, purpose: string)
    ensures StartsWith(blob, Header(purpose)) ==> StartsWith(blob, PURPOSE_MAGIC_PREFIX)
  {
    if StartsWith(blob, Header(purpose)) {
      HeadersStartWithPrefix(purpose, []);
      assert Header(purpose) + [] == Header(purpose);
      var n := |PURPOSE_MAGIC_PREFIX|;
      assert blob[..n] == blob[..|Header(purpose)|][..n];
    }
  }

  /** An untagged blob of the earlier release hands its body over exactly to the library
      snapshot's opener, and only when the body does not itself begin like a tag. */
  lemma LegacyOpensExactly(body: Bytes, purpose: string)
    requires purpose in ENVELOPE_PURPOSES
    ensures BodyOf(FILE_MAGIC + body, purpose, None) == Ok(body)
      <==> purpose == PURPOSE_LIBRARY_SNAPSHOT && !StartsWith(body, TAG)
  {
    var blob := FILE_MAGIC + body;
    PrefixOfConcat(FILE_MAGIC, body);
    assert StartsWith(blob, PURPOSE_MAGIC_PREFIX) <==> StartsWith(body, TAG) by {
      if |body| >= |TAG| { assert blob[..|PURPOSE_MAGIC_PREFIX|] == FILE_MAGIC + body[..|TAG|]; }
      if StartsWith(blob, PURPOSE_MAGIC_PREFIX) {
        assert PURPOSE_MAGIC_PREFIX[|FILE_MAGIC|..] == TAG;
        assert (FILE_MAGIC + body[..|TAG|])[|FILE_MAGIC|..] == body[..|TAG|];
      }
    }
    TaggedIsTagged(blob, purpose);
    if StartsWith(blob, Header(purpose)) { assert |blob[|Header(purpose)|..]| < |body|; }
    PurposesAreTwo(purpose);
  }

  lemma PurposesAreTwo(purpose: string)
    requires purpose in ENVELOPE_PURPOSES
    ensures purpose in LEGACY_READABLE_PURPOSES <==> purpose == PURPOSE_LIBRARY_SNAPSHOT
  {
  }
}
