/**
  Base64 with the URL- and filename-safe alphabet of section 5 of RFC 4648,
  as the cursor codec uses it: `base64.urlsafe_b64encode` (padded with `=`)
  and `base64.urlsafe_b64decode`, which translates `-` and `_` to `+` and `/`
  and then runs CPython's lenient `binascii.a2b_base64`.
 */
module Base64Url {
  import opened Wrappers
  import opened Bytes

  /** The character for a 6-bit value: `A-Z`, `a-z`, `0-9`, `-`, `_`. */
  function Char(v: int): (c: char)
    requires 0 <= v < 64
    ensures c as int < 128
  {
    if v < 26 then ('A' as int + v) as char
    else if v < 52 then ('a' as int + v - 26) as char
    else if v < 62 then ('0' as int + v - 52) as char
    else if v == 62 then '-'
    else '_'
  }

  /**
    The 6-bit value of a character after the `-`/`_` translation (so the
    standard `+` and `/` are accepted too); 64 for a character the decoder
    skips. A non-ASCII character becomes bytes of 0x80 and above when the
    cursor is UTF-8 encoded, and the decoder skips every such byte.
   */
  function SextetOf(c: char): (v: int)
    ensures 0 <= v <= 64
  {
    if 'A' <= c <= 'Z' then c as int - 'A' as int
    else if 'a' <= c <= 'z' then c as int - 'a' as int + 26
    else if '0' <= c <= '9' then c as int - '0' as int + 52
    else if c == '+' || c == '-' then 62
    else if c == '/' || c == '_' then 63
    else 64
  }

  lemma SextetOfChar(v: int)
    requires 0 <= v < 64
    ensures SextetOf(Char(v)) == v
  {
  }

  /** The four characters of a full group of three bytes. */
  function Group(b0: byte, b1: byte, b2: byte): (g: string)
    ensures |g| == 4 && forall i :: 0 <= i < 4 ==> g[i] as int < 128
  {
    [Char(b0 / 4), Char(b0 % 4 * 16 + b1 / 16), Char(b1 % 16 * 4 + b2 / 64), Char(b2 % 64)]
  }

  /** `urlsafe_b64encode(raw).decode()`: four characters per three bytes, the last group padded with `=`. */
  function Encode(b: seq<byte>): (s: string)
    ensures |s| == (|b| + 2) / 3 * 4
    ensures forall i :: 0 <= i < |s| ==> s[i] as int < 128
    decreases |b|
  {
    if |b| == 0 then ""
    else if |b| == 1 then [Char(b[0] / 4), Char(b[0] % 4 * 16), '=', '=']
    else if |b| == 2 then [Char(b[0] / 4), Char(b[0] % 4 * 16 + b[1] / 16), Char(b[1] % 16 * 4), '=']
    else Group(b[0], b[1], b[2]) + Encode(b[3..])
  }

  /** The encoding is whole groups of four characters, padding included. */
  lemma EncodeWholeGroups(b: seq<byte>)
    ensures |Encode(b)| % 4 == 0
  {
    MultipleOfFour((|b| + 2) / 3, |Encode(b)|);
  }

  lemma MultipleOfFour(k: int, n: int)
    requires n == k * 4
    ensures n % 4 == 0
  {
    assert n == 4 * k + 0;
  }

  function Prepend(x: byte, r: Option<seq<byte>>): Option<seq<byte>>
  {
    if r.Some? then Some([x] + r.value) else None
  }

  /**
    CPython's non-strict `a2b_base64`: `quad` counts the data characters of
    the current group, `left` holds their unused low bits and `pads` the `=`
    seen since the last data character. Characters outside the alphabet are
    skipped; a `=` ends decoding once the group has enough padding; a
    `=` earlier in a group is ignored; input that ends inside a group fails.
   */
  function A2b(s: string, quad: nat, left: int, pads: nat): Option<seq<byte>>
    requires quad < 4 && 0 <= left
    requires quad == 0 ==> left == 0
    requires quad == 1 ==> left < 64
    requires quad == 2 ==> left < 16
    requires quad == 3 ==> left < 4
    decreases |s|
  {
    if s == [] then
      if quad == 0 then Some([]) else None
    else if s[0] == '=' then
      if quad >= 2 && quad + pads + 1 >= 4 then Some([])
      else A2b(s[1..], quad, left, if quad >= 2 then pads + 1 else pads)
    else
      var v := SextetOf(s[0]);
      if v == 64 then A2b(s[1..], quad, left, pads)
      else if quad == 0 then A2b(s[1..], 1, v, 0)
      else if quad == 1 then Prepend(left * 4 + v / 16, A2b(s[1..], 2, v % 16, 0))
      else if quad == 2 then Prepend(left * 16 + v / 4, A2b(s[1..], 3, v % 4, 0))
      else Prepend(left * 64 + v, A2b(s[1..], 0, 0, 0))
  }

  /** `urlsafe_b64decode(cursor.encode())`; `None` where Python raises `binascii.Error`. */
  function Decode(s: string): Option<seq<byte>>
  {
    A2b(s, 0, 0, 0)
  }

  /** The bit arithmetic of one group: the 6-bit values put the bytes back together. */
  lemma GroupArithmetic(b0: byte, b1: byte, b2: byte)
    ensures b0 / 4 * 4 + (b0 % 4 * 16 + b1 / 16) / 16 == b0
    ensures (b0 % 4 * 16 + b1 / 16) % 16 * 16 + (b1 % 16 * 4 + b2 / 64) / 4 == b1
    ensures (b1 % 16 * 4 + b2 / 64) % 4 * 64 + b2 % 64 == b2
  {
  }

  /** Four data characters in a row, from the start of a group, give back the three bytes their 6-bit values hold. */
  lemma DecodeSextets(v0: int, v1: int, v2: int, v3: int, rest: string)
    requires 0 <= v0 < 64 && 0 <= v1 < 64 && 0 <= v2 < 64 && 0 <= v3 < 64
    ensures A2b([Char(v0), Char(v1), Char(v2), Char(v3)] + rest, 0, 0, 0)
      == Prepend(v0 * 4 + v1 / 16, Prepend(v1 % 16 * 16 + v2 / 4, Prepend(v2 % 4 * 64 + v3, A2b(rest, 0, 0, 0))))
  {
    SextetOfChar(v0); SextetOfChar(v1); SextetOfChar(v2); SextetOfChar(v3);
    var c0, c1, c2, c3 := Char(v0), Char(v1), Char(v2), Char(v3);
    assert [c0, c1, c2, c3] + rest == [c0] + ([c1] + ([c2] + ([c3] + rest)));
    A2bData(c3, rest, 3, v2 % 4);
    A2bData(c2, [c3] + rest, 2, v1 % 16);
    A2bData(c1, [c2] + ([c3] + rest), 1, v0);
    A2bData(c0, [c1] + ([c2] + ([c3] + rest)), 0, 0);
  }

  /** One data character in the middle of a group. */
  lemma A2bData(c: char, s: string, quad: nat, left: int)
    requires SextetOf(c) < 64 && quad < 4 && 0 <= left
    requires quad == 0 ==> left == 0
    requires quad == 1 ==> left < 64
    requires quad == 2 ==> left < 16
    requires quad == 3 ==> left < 4
    ensures var v := SextetOf(c);
      A2b([c] + s, quad, left, 0) ==
        if quad == 0 then A2b(s, 1, v, 0)
        else if quad == 1 then Prepend(left * 4 + v / 16, A2b(s, 2, v % 16, 0))
        else if quad == 2 then Prepend(left * 16 + v / 4, A2b(s, 3, v % 4, 0))
        else Prepend(left * 64 + v, A2b(s, 0, 0, 0))
  {
    assert ([c] + s)[0] == c && ([c] + s)[1..] == s;
  }

  /** Decoding one full group of four characters yields its three bytes, then decoding goes on afresh. */
  lemma DecodeGroup(b0: byte, b1: byte, b2: byte, rest: string)
    ensures A2b(Group(b0, b1, b2) + rest, 0, 0, 0) == Prepend(b0, Prepend(b1, Prepend(b2, A2b(rest, 0, 0, 0))))
  {
    var v0, v1, v2, v3 := b0 / 4, b0 % 4 * 16 + b1 / 16, b1 % 16 * 4 + b2 / 64, b2 % 64;
    GroupArithmetic(b0, b1, b2);
    DecodeSextets(v0, v1, v2, v3, rest);
  }

  /** A final group holding one byte: two data characters and `==`. */
  lemma DecodeLastOne(b0: byte)
    ensures Decode(Encode([b0])) == Some([b0])
  {
    var v0, v1 := b0 / 4, b0 % 4 * 16;
    SextetOfChar(v0); SextetOfChar(v1);
    var c0, c1 := Char(v0), Char(v1);
    assert Encode([b0]) == [c0] + ([c1] + "==");
    var none: seq<byte> := [];
    assert "=="[1..] == "=";
    assert A2b("==", 2, 0, 0) == Some(none);
    assert [b0] + none == [b0];
    assert v0 * 4 + v1 / 16 == b0;
    A2bData(c1, "==", 1, v0);
    A2bData(c0, [c1] + "==", 0, 0);
  }

  /** A final group holding two bytes: three data characters and `=`. */
  lemma DecodeLastTwo(b0: byte, b1: byte)
    ensures Decode(Encode([b0, b1])) == Some([b0, b1])
  {
    var v0, v1, v2 := b0 / 4, b0 % 4 * 16 + b1 / 16, b1 % 16 * 4;
    SextetOfChar(v0); SextetOfChar(v1); SextetOfChar(v2);
    var c0, c1, c2 := Char(v0), Char(v1), Char(v2);
    assert Encode([b0, b1]) == [c0] + ([c1] + ([c2] + "="));
    assert v0 * 4 + v1 / 16 == b0;
    assert v1 % 16 * 16 + v2 / 4 == b1;
    assert v2 % 4 == 0;
    var none: seq<byte> := [];
    assert A2b("=", 3, 0, 0) == Some(none);
    assert [b1] + none == [b1];
    A2bData(c2, "=", 2, v1 % 16);
    assert A2b([c2] + "=", 2, v1 % 16, 0) == Some([b1]);
    A2bData(c1, [c2] + "=", 1, v0);
    assert [b0] + [b1] == [b0, b1];
    assert A2b([c1] + ([c2] + "="), 1, v0, 0) == Some([b0, b1]);
    A2bData(c0, [c1] + ([c2] + "="), 0, 0);
  }

  /** Decoding inverts encoding: `urlsafe_b64decode(urlsafe_b64encode(b)) == b`. */
  lemma {:induction false} DecodeEncode(b: seq<byte>)
    ensures Decode(Encode(b)) == Some(b)
    decreases |b|
  {
    if |b| == 1 {
      assert b == [b[0]];
      DecodeLastOne(b[0]);
    } else if |b| == 2 {
      assert b == [b[0], b[1]];
      DecodeLastTwo(b[0], b[1]);
    } else if |b| >= 3 {
      var rest := Encode(b[3..]);
      var g := Group(b[0], b[1], b[2]);
      assert Encode(b) == g + rest;
      assert A2b(g + rest, 0, 0, 0) == Prepend(b[0], Prepend(b[1], Prepend(b[2], A2b(rest, 0, 0, 0)))) by {
        DecodeGroup(b[0], b[1], b[2], rest);
      }
      assert A2b(rest, 0, 0, 0) == Some(b[3..]) by {
        DecodeEncode(b[3..]);
      }
      assert b == [b[0]] + ([b[1]] + ([b[2]] + b[3..]));
    }
  }

  /** Every character of `s` is one of the alphabet's 64 data characters. */
  predicate AllData(s: string)
  {
    s == [] || (SextetOf(s[0]) < 64 && AllData(s[1..]))
  }

  /**
    Input made only of data characters decodes only when they fill whole
    groups of four: otherwise the decoder ends inside a group and reports
    incorrect padding.
   */
  lemma {:induction false} DataNeedsWholeGroups(s: string, quad: nat, left: int, pads: nat)
    requires quad < 4 && 0 <= left
    requires quad == 0 ==> left == 0
    requires quad == 1 ==> left < 64
    requires quad == 2 ==> left < 16
    requires quad == 3 ==> left < 4
    requires AllData(s)
    ensures A2b(s, quad, left, pads).Some? ==> (quad + |s|) % 4 == 0
    decreases |s|
  {
    if s != [] {
      var v := SextetOf(s[0]);
      if quad == 0 {
        DataNeedsWholeGroups(s[1..], 1, v, 0);
      } else if quad == 1 {
        DataNeedsWholeGroups(s[1..], 2, v % 16, 0);
      } else if quad == 2 {
        DataNeedsWholeGroups(s[1..], 3, v % 4, 0);
      } else {
        DataNeedsWholeGroups(s[1..], 0, 0, 0);
      }
    }
  }

  /** Data characters that do not fill whole groups of four do not decode. */
  lemma PartialGroupUndecodable(s: string)
    requires AllData(s) && |s| % 4 != 0
    ensures Decode(s) == None
  {
    DataNeedsWholeGroups(s, 0, 0, 0);
  }
}
