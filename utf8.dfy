/**
  UTF-8, as `str.encode()` and `bytes.decode()` use it on the cursor's JSON
  text: encoding writes each character's scalar value in one to four bytes;
  strict decoding accepts exactly the well-formed sequences (no overlong
  forms, no surrogates, nothing above U+10FFFF) and fails otherwise.
 */
module Utf8 {
  import opened Wrappers
  import opened Bytes

  /** The bytes of one character. */
  function EncodeChar(c: char): (b: seq<byte>)
    ensures 1 <= |b| <= 4
  {
    var n := c as int;
    if n < 0x80 then [n]
    else if n < 0x800 then [0xC0 + n / 64, 0x80 + n % 64]
    else if n < 0x10000 then [0xE0 + n / 4096, 0x80 + n / 64 % 64, 0x80 + n % 64]
    else [0xF0 + n / 262144, 0x80 + n / 4096 % 64, 0x80 + n / 64 % 64, 0x80 + n % 64]
  }

  /** `s.encode()`. */
  function Encode(s: string): seq<byte>
  {
    if s == [] then [] else EncodeChar(s[0]) + Encode(s[1..])
  }

  predicate IsContinuation(b: byte)
  {
    0x80 <= b < 0xC0
  }

  /**
    The character starting `b` and the number of bytes it takes, or `None`
    when `b` does not start with a well-formed sequence.
   */
  function DecodeChar(b: seq<byte>): (r: Option<(char, nat)>)
    requires b != []
    ensures r.Some? ==> 1 <= r.value.1 <= |b|
  {
    var b0: int := b[0];
    if b0 < 0x80 then Some((b0 as char, 1))
    else if 0xC2 <= b0 < 0xE0 then
      if |b| >= 2 && IsContinuation(b[1]) then
        Some((((b0 - 0xC0) * 64 + (b[1] as int - 0x80)) as char, 2))
      else None
    else if 0xE0 <= b0 < 0xF0 then
      var lo := if b0 == 0xE0 then 0xA0 else 0x80;
      var hi := if b0 == 0xED then 0xA0 else 0xC0;
      if |b| >= 3 && lo <= b[1] < hi && IsContinuation(b[2]) then
        Some((((b0 - 0xE0) * 4096 + (b[1] as int - 0x80) * 64 + (b[2] as int - 0x80)) as char, 3))
      else None
    else if 0xF0 <= b0 < 0xF5 then
      var lo := if b0 == 0xF0 then 0x90 else 0x80;
      var hi := if b0 == 0xF4 then 0x90 else 0xC0;
      if |b| >= 4 && lo <= b[1] < hi && IsContinuation(b[2]) && IsContinuation(b[3]) then
        Some((((b0 - 0xF0) * 262144 + (b[1] as int - 0x80) * 4096 + (b[2] as int - 0x80) * 64 + (b[3] as int - 0x80)) as char, 4))
      else None
    else None
  }

  /** `b.decode()`: `None` where Python raises `UnicodeDecodeError`. */
  function Decode(b: seq<byte>): Option<string>
    decreases |b|
  {
    if b == [] then Some([])
    else match DecodeChar(b)
      case None => None
      case Some((c, n)) =>
        match Decode(b[n..])
        case None => None
        case Some(rest) => Some([c] + rest)
  }

  lemma DecodeTwo(c: char, rest: seq<byte>)
    requires 0x80 <= c as int < 0x800
    ensures DecodeChar(EncodeChar(c) + rest) == Some((c, 2))
  {
    var n := c as int;
    var b0, b1 := 0xC0 + n / 64, 0x80 + n % 64;
    assert EncodeChar(c) == [b0, b1];
    var b := [b0, b1] + rest;
    assert b[0] == b0 && b[1] == b1;
    assert (b0 - 0xC0) * 64 + (b1 - 0x80) == n;
  }

  lemma DecodeThree(c: char, rest: seq<byte>)
    requires 0x800 <= c as int < 0x10000
    ensures DecodeChar(EncodeChar(c) + rest) == Some((c, 3))
  {
    var n := c as int;
    var b0, b1, b2 := 0xE0 + n / 4096, 0x80 + n / 64 % 64, 0x80 + n % 64;
    assert EncodeChar(c) == [b0, b1, b2];
    var b := [b0, b1, b2] + rest;
    assert b[0] == b0 && b[1] == b1 && b[2] == b2;
    assert n / 4096 * 4096 + n / 64 % 64 * 64 + n % 64 == n;
    assert b0 == 0xE0 ==> b1 >= 0xA0;
    assert b0 == 0xED ==> b1 < 0xA0;
  }

  /** The four bytes of a character beyond the BMP lie in the ranges the decoder accepts and add back up to it. */
  lemma FourByteArithmetic(n: int)
    requires 0x10000 <= n < 0x110000
    ensures var b0, b1, b2, b3 := 0xF0 + n / 262144, 0x80 + n / 4096 % 64, 0x80 + n / 64 % 64, 0x80 + n % 64;
      0xF0 <= b0 < 0xF5 && 0x80 <= b1 < 0xC0 && IsContinuation(b2) && IsContinuation(b3) &&
      (b0 == 0xF0 ==> b1 >= 0x90) && (b0 == 0xF4 ==> b1 < 0x90) &&
      (b0 - 0xF0) * 262144 + (b1 - 0x80) * 4096 + (b2 - 0x80) * 64 + (b3 - 0x80) == n
  {
    var q1, q2, q3 := n / 64, n / 4096, n / 262144;
    assert n == q1 * 64 + n % 64;
    assert q1 / 64 == q2 && q1 == q2 * 64 + q1 % 64;
    assert q2 / 64 == q3 && q2 == q3 * 64 + q2 % 64;
  }

  /** A four-byte sequence in the accepted ranges decodes to the code point its bits spell. */
  lemma DecodeCharFour(b: seq<byte>, n: int)
    requires |b| >= 4 && 0x10000 <= n < 0x110000
    requires 0xF0 <= b[0] < 0xF5 && 0x80 <= b[1] < 0xC0 && IsContinuation(b[2]) && IsContinuation(b[3])
    requires (b[0] == 0xF0 ==> b[1] >= 0x90) && (b[0] == 0xF4 ==> b[1] < 0x90)
    requires (b[0] as int - 0xF0) * 262144 + (b[1] as int - 0x80) * 4096 + (b[2] as int - 0x80) * 64 + (b[3] as int - 0x80) == n
    ensures DecodeChar(b) == Some((n as char, 4))
  {
  }

  lemma DecodeFour(c: char, rest: seq<byte>)
    requires 0x10000 <= c as int
    ensures DecodeChar(EncodeChar(c) + rest) == Some((c, 4))
  {
    var n := c as int;
    var b0, b1, b2, b3 := 0xF0 + n / 262144, 0x80 + n / 4096 % 64, 0x80 + n / 64 % 64, 0x80 + n % 64;
    FourByteArithmetic(n);
    assert EncodeChar(c) == [b0, b1, b2, b3];
    var b := [b0, b1, b2, b3] + rest;
    assert b[0] == b0 && b[1] == b1 && b[2] == b2 && b[3] == b3;
    DecodeCharFour(b, n);
  }

  /** The bytes of a character decode to that character, whatever follows them. */
  lemma DecodeEncodeChar(c: char, rest: seq<byte>)
    ensures DecodeChar(EncodeChar(c) + rest) == Some((c, |EncodeChar(c)|))
  {
    var n := c as int;
    if n < 0x80 {
      assert (EncodeChar(c) + rest)[0] == n;
    } else if n < 0x800 {
      DecodeTwo(c, rest);
    } else if n < 0x10000 {
      DecodeThree(c, rest);
    } else {
      DecodeFour(c, rest);
    }
  }

  /** Decoding inverts encoding: `s.encode().decode() == s`. */
  lemma {:induction false} DecodeEncode(s: string)
    ensures Decode(Encode(s)) == Some(s)
  {
    if s != [] {
      var e := EncodeChar(s[0]);
      DecodeEncodeChar(s[0], Encode(s[1..]));
      assert (e + Encode(s[1..]))[|e|..] == Encode(s[1..]);
      DecodeEncode(s[1..]);
      assert [s[0]] + s[1..] == s;
    }
  }
}
