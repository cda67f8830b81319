/** Base 64 as in section 4 of RFC 4648, decoded strictly. */
module Base64 {
  import opened Texts

  newtype byte = i: int | 0 <= i < 256

  type Bytes = seq<byte>

  function Letter(v: int): char
    requires 0 <= v < 64
  {
    if v < 26 then 'A' + v as char
    else if v < 52 then 'a' + (v - 26) as char
    else if v < 62 then '0' + (v - 52) as char
    else if v == 62 then '+' else '/'
  }

  function Sextet(c: char): (r: Option<int>)
    ensures r.Some? ==> 0 <= r.value < 64
  {
    if 'A' <= c <= 'Z' then Some(c as int - 'A' as int)
    else if 'a' <= c <= 'z' then Some(c as int - 'a' as int + 26)
    else if '0' <= c <= '9' then Some(c as int - '0' as int + 52)
    else if c == '+' then Some(62)
    else if c == '/' then Some(63)
    else None
  }

  lemma SextetOfLetter(v: int)
    requires 0 <= v < 64
    ensures Sextet(Letter(v)) == Some(v) && Letter(v) != '='
  {
  }

  // The four sextets of three bytes, and back.

  function S1(x: int): (r: int) requires 0 <= x < 256 ensures 0 <= r < 64 { x / 4 }
  function S2(x: int, y: int): (r: int) requires 0 <= x < 256 && 0 <= y < 256 ensures 0 <= r < 64 { x % 4 * 16 + y / 16 }
  function S3(y: int, z: int): (r: int) requires 0 <= y < 256 && 0 <= z < 256 ensures 0 <= r < 64 { y % 16 * 4 + z / 64 }
  function S4(z: int): (r: int) requires 0 <= z < 256 ensures 0 <= r < 64 { z % 64 }

  function B1(a: int, b: int): byte requires 0 <= a < 64 && 0 <= b < 64 { (a * 4 + b / 16) as byte }
  function B2(b: int, c: int): byte requires 0 <= b < 64 && 0 <= c < 64 { (b % 16 * 16 + c / 4) as byte }
  function B3(c: int, d: int): byte requires 0 <= c < 64 && 0 <= d < 64 { (c % 4 * 64 + d) as byte }

  lemma BytesOfSextets(x: int, y: int, z: int)
    requires 0 <= x < 256 && 0 <= y < 256 && 0 <= z < 256
    ensures B1(S1(x), S2(x, y)) as int == x && B2(S2(x, y), S3(y, z)) as int == y && B3(S3(y, z), S4(z)) as int == z
  {
    assert S2(x, y) / 16 == x % 4 && S2(x, y) % 16 == y / 16;
    assert S3(y, z) / 4 == y % 16 && S3(y, z) % 4 == z / 64;
  }

  function Encode(b: Bytes): string {
    if |b| == 0 then ""
    else if |b| == 1 then [Letter(S1(b[0] as int)), Letter(S2(b[0] as int, 0)), '=', '=']
    else if |b| == 2 then
      [Letter(S1(b[0] as int)), Letter(S2(b[0] as int, b[1] as int)), Letter(S3(b[1] as int, 0)), '=']
    else
      [Letter(S1(b[0] as int)), Letter(S2(b[0] as int, b[1] as int)), Letter(S3(b[1] as int, b[2] as int)),
       Letter(S4(b[2] as int))] + Encode(b[3..])
  }

  function Decode(s: string): Option<Bytes> {
    if s == "" then Some([])
    else if |s| < 4 then None
    else
      var a, b, c, d := Sextet(s[0]), Sextet(s[1]), Sextet(s[2]), Sextet(s[3]);
      if a.None? || b.None? then None
      else if |s| == 4 && s[2] == '=' && s[3] == '=' then Some([B1(a.value, b.value)])
      else if |s| == 4 && c.Some? && s[3] == '=' then Some([B1(a.value, b.value), B2(b.value, c.value)])
      else if c.None? || d.None? then None
      else
        var rest := Decode(s[4..]);
        if rest.None? then None
        else Some([B1(a.value, b.value), B2(b.value, c.value), B3(c.value, d.value)] + rest.value)
  }

  lemma DecodeFour(a: int, b: int, c: int, d: int, rest: string)
    requires 0 <= a < 64 && 0 <= b < 64 && 0 <= c < 64 && 0 <= d < 64 && Decode(rest).Some?
    ensures Decode([Letter(a), Letter(b), Letter(c), Letter(d)] + rest) == Some([B1(a, b), B2(b, c), B3(c, d)] + Decode(rest).value)
  {
    var s := [Letter(a), Letter(b), Letter(c), Letter(d)] + rest;
    SextetOfLetter(a);
    SextetOfLetter(b);
    SextetOfLetter(c);
    SextetOfLetter(d);
    assert s[0] == Letter(a) && s[1] == Letter(b) && s[2] == Letter(c) && s[3] == Letter(d) && s[4..] == rest;
  }

  lemma DecodePadded(a: int, b: int)
    requires 0 <= a < 64 && 0 <= b < 64
    ensures Decode([Letter(a), Letter(b), '=', '=']) == Some([B1(a, b)])
  {
    SextetOfLetter(a);
    SextetOfLetter(b);
  }

  lemma FirstByte(n: int)
    requires 0 <= n < 256
    ensures B1(S1(n), S2(n, 0)) as int == n
  {
    BytesOfSextets(n, 0, 0);
  }

  lemma EncodeOne(x: byte, a: int, b: int)
    requires a == S1(x as int) && b == S2(x as int, 0)
    ensures Encode([x]) == [Letter(a), Letter(b), '=', '=']
  {
  }

  lemma DecodeOne(x: byte)
    ensures Decode(Encode([x])) == Some([x])
  {
    var a, b := S1(x as int), S2(x as int, 0);
    EncodeOne(x, a, b);
    DecodePadded(a, b);
    FirstByte(x as int);
  }

  lemma DecodeTwo(x: byte, y: byte)
    ensures Decode(Encode([x, y])) == Some([x, y])
  {
    var a, b, c := S1(x as int), S2(x as int, y as int), S3(y as int, 0);
    BytesOfSextets(x as int, y as int, 0);
    SextetOfLetter(a);
    SextetOfLetter(b);
    SextetOfLetter(c);
    assert Encode([x, y]) == [Letter(a), Letter(b), Letter(c), '='];
    assert B1(a, b) == x && B2(b, c) == y;
  }

  lemma DecodeMore(x: byte, y: byte, z: byte, rest: Bytes)
    requires Decode(Encode(rest)) == Some(rest)
    ensures Decode(Encode([x, y, z] + rest)) == Some([x, y, z] + rest)
  {
    var b := [x, y, z] + rest;
    BytesOfSextets(x as int, y as int, z as int);
    DecodeFour(S1(x as int), S2(x as int, y as int), S3(y as int, z as int), S4(z as int), Encode(rest));
    assert b[0] == x && b[1] == y && b[2] == z && b[3..] == rest;
  }

  lemma {:induction false} EncodedLength(b: Bytes)
    ensures |Encode(b)| == 4 * ((|b| + 2) / 3)
  {
    if |b| < 3 {
    } else {
      EncodedLength(b[3..]);
      assert (|b| + 2) / 3 == (|b| - 3 + 2) / 3 + 1;
    }
  }

  /** What is encoded is decoded. */
  lemma {:induction false} DecodeEncode(b: Bytes)
    ensures Decode(Encode(b)) == Some(b)
  {
    if |b| == 1 {
      DecodeOne(b[0]);
      assert b == [b[0]];
    } else if |b| == 2 {
      DecodeTwo(b[0], b[1]);
      assert b == [b[0], b[1]];
    } else if |b| >= 3 {
      DecodeEncode(b[3..]);
      DecodeMore(b[0], b[1], b[2], b[3..]);
      assert b == [b[0], b[1], b[2]] + b[3..];
    }
  }
}
