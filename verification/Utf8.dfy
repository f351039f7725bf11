/** UTF-8 (RFC 3629) over Unicode scalar values, and the JavaScript length of a string. */
module Utf8 {
  import opened Wrappers
  import opened ZipBytes

  predicate IsScalar(n: int) { 0 <= n < 0xD800 || 0xE000 <= n < 0x11_0000 }

  function EncodeChar(c: char): (r: Bytes)
    ensures 1 <= |r| <= 4
  {
    var n := c as int;
    if n < 0x80 then [n as byte]
    else if n < 0x800 then [(0xC0 + n / 0x40) as byte, (0x80 + n % 0x40) as byte]
    else if n < 0x1_0000 then
      [(0xE0 + n / 0x1000) as byte, (0x80 + n / 0x40 % 0x40) as byte, (0x80 + n % 0x40) as byte]
    else
      [(0xF0 + n / 0x4_0000) as byte, (0x80 + n / 0x1000 % 0x40) as byte,
       (0x80 + n / 0x40 % 0x40) as byte, (0x80 + n % 0x40) as byte]
  }

  function Encode(s: string): Bytes
  {
    if s == [] then [] else EncodeChar(s[0]) + Encode(s[1..])
  }

  predicate IsTail(b: byte) { 0x80 <= b < 0xC0 }

  datatype Decoded = Decoded(c: char, len: nat)

  function Scalar(n: int, least: int, len: nat): (r: Option<Decoded>)
    ensures r.Some? ==> r.value.len == len
  {
    if n < least || !IsScalar(n) then None else Some(Decoded(n as char, len))
  }

  /** The first character of a strictly well-formed text. */
  function DecodeChar(b: Bytes): (r: Option<Decoded>)
    requires b != []
    ensures r.Some? ==> 1 <= r.value.len <= |b|
  {
    var x := b[0] as int;
    if x < 0x80 then Some(Decoded(x as char, 1))
    else if 0xC0 <= x < 0xE0 && |b| >= 2 && IsTail(b[1]) then
      Scalar((x - 0xC0) * 0x40 + (b[1] as int - 0x80), 0x80, 2)
    else if 0xE0 <= x < 0xF0 && |b| >= 3 && IsTail(b[1]) && IsTail(b[2]) then
      Scalar((x - 0xE0) * 0x1000 + (b[1] as int - 0x80) * 0x40 + (b[2] as int - 0x80), 0x800, 3)
    else if 0xF0 <= x < 0xF8 && |b| >= 4 && IsTail(b[1]) && IsTail(b[2]) && IsTail(b[3]) then
      Scalar((x - 0xF0) * 0x4_0000 + (b[1] as int - 0x80) * 0x1000 + (b[2] as int - 0x80) * 0x40 + (b[3] as int - 0x80),
             0x1_0000, 4)
    else None
  }

  /** Strict decoding: `None` for any ill-formed sequence. */
  function Decode(b: Bytes): Option<string>
    decreases |b|
  {
    if b == [] then Some([])
    else match DecodeChar(b)
      case None => None
      case Some(d) =>
        match Decode(b[d.len..])
        case None => None
        case Some(rest) => Some([d.c] + rest)
  }

  lemma {:induction false} DecodeEncodedChar(c: char, rest: Bytes)
    ensures DecodeChar(EncodeChar(c) + rest) == Some(Decoded(c, |EncodeChar(c)|))
  {
    var n := c as int;
    if n < 0x800 {
    } else if n < 0x1_0000 {
      Digits64(n);
    } else {
      DecodeFourBytes(c, rest);
    }
  }

  lemma {:induction false} Digits64(n: nat)
    ensures n == n / 0x1000 * 0x1000 + n / 0x40 % 0x40 * 0x40 + n % 0x40
    ensures n / 0x1000 == n / 0x4_0000 * 0x40 + n / 0x1000 % 0x40
  {
    assert n / 0x40 == n / 0x1000 * 0x40 + n / 0x40 % 0x40;
  }

  lemma {:induction false} DecodeFourBytes(c: char, rest: Bytes)
    requires c as int >= 0x1_0000
    ensures DecodeChar(EncodeChar(c) + rest) == Some(Decoded(c, 4))
  {
    var n := c as int;
    var b := EncodeChar(c) + rest;
    Digits64(n);
    assert b[0] as int == 0xF0 + n / 0x4_0000 && b[1] as int == 0x80 + n / 0x1000 % 0x40;
    assert b[2] as int == 0x80 + n / 0x40 % 0x40 && b[3] as int == 0x80 + n % 0x40;
  }

  /** Decoding undoes encoding. */
  lemma {:induction false} DecodeEncoded(s: string)
    ensures Decode(Encode(s)) == Some(s)
    decreases |s|
  {
    if s != [] {
      DecodeEncodedChar(s[0], Encode(s[1..]));
      DecodeEncoded(s[1..]);
      assert Encode(s)[|EncodeChar(s[0])|..] == Encode(s[1..]);
      assert s == [s[0]] + s[1..];
    }
  }

  /** `String.prototype.length`: characters beyond U+FFFF take two units. */
  function JsLength(s: string): nat
  {
    if s == [] then 0 else (if s[0] as int >= 0x1_0000 then 2 else 1) + JsLength(s[1..])
  }

  /** UTF-8 needs at least as many bytes as UTF-16 needs units, and at most three times as many. */
  lemma {:induction false} EncodedLength(s: string)
    ensures JsLength(s) <= |Encode(s)| <= 3 * JsLength(s)
    decreases |s|
  {
    if s != [] {
      EncodedLength(s[1..]);
    }
  }

  const BOM: char := '\U{FEFF}'

  /** `new TextDecoder('utf-8', {fatal: true})`: strict, and drops a leading byte order mark. */
  function FatalDecode(b: Bytes): Option<string>
  {
    match Decode(b)
    case None => None
    case Some(s) => Some(if s != [] && s[0] == BOM then s[1..] else s)
  }
}
