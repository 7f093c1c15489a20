/**
  The part of Python's `json` module the cursor codec uses: `json.dumps` with
  `separators=(',', ':')` and the default `ensure_ascii=True`, and the strict
  `json.loads` scanner, for flat objects whose values are null, booleans,
  integers and strings.
 */
module Json {
  import opened Wrappers
  import opened Dicts

  datatype Json = JNull | JBool(b: bool) | JInt(i: int) | JStr(s: string)

  /** A decoded JSON object: keys in document order. */
  type Object = Dict<Json>

  // ---------------------------------------------------------------- writing

  predicate IsDigit(c: char)
  {
    '0' <= c <= '9'
  }

  function Digit(d: int): (c: char)
    requires 0 <= d < 10
    ensures IsDigit(c) && c as int - '0' as int == d
  {
    ('0' as int + d) as char
  }

  /** `str(n)` for a natural number: decimal, no leading zeros. */
  function NatToString(n: nat): (s: string)
    ensures s != []
    ensures forall i :: 0 <= i < |s| ==> IsDigit(s[i])
    ensures s[0] == '0' <==> n == 0
    decreases n
  {
    if n < 10 then [Digit(n)] else NatToString(n / 10) + [Digit(n % 10)]
  }

  /** How `json.dumps` writes an `int`. */
  function IntToString(i: int): string
  {
    if i < 0 then "-" + NatToString(-i) else NatToString(i)
  }

  /** Lower-case hexadecimal digit, as `json.dumps` writes `\uXXXX`. */
  function HexDigit(d: int): (c: char)
    requires 0 <= d < 16
  {
    if d < 10 then Digit(d) else ('a' as int + d - 10) as char
  }

  function Hex4(n: int): (s: string)
    requires 0 <= n < 0x10000
    ensures |s| == 4
  {
    [HexDigit(n / 0x1000), HexDigit(n / 0x100 % 16), HexDigit(n / 0x10 % 16), HexDigit(n % 16)]
  }

  function UEscape(n: int): (s: string)
    requires 0 <= n < 0x10000
  {
    ['\\', 'u'] + Hex4(n)
  }

  /** The letter of the two-character escape `json.dumps` uses for `c`, if any. */
  function ShortEscape(c: char): Option<char>
  {
    if c == '"' then Some('"')
    else if c == '\\' then Some('\\')
    else if c as int == 0x08 then Some('b')
    else if c as int == 0x0C then Some('f')
    else if c == '\n' then Some('n')
    else if c == '\r' then Some('r')
    else if c == '\t' then Some('t')
    else None
  }

  /** `\uXXXX`, or a surrogate pair of them beyond the Basic Multilingual Plane. */
  function UnicodeEscape(c: char): (s: string)
    ensures |s| >= 6 && s[0] == '\\' && s[1] == 'u'
  {
    var n := c as int;
    if n < 0x10000 then UEscape(n)
    else
      var m := n - 0x10000;
      UEscape(0xD800 + m / 0x400) + UEscape(0xDC00 + m % 0x400)
  }

  /**
    One character as `ensure_ascii` writes it: a two-character escape where
    there is one; printable ASCII as itself; anything else as `\uXXXX`,
    characters beyond the Basic Multilingual Plane as a surrogate pair.
   */
  function EscapeChar(c: char): (s: string)
    ensures s != [] && (s[0] == '\\' || 0x20 <= s[0] as int < 0x7F)
    ensures s[0] != '\\' ==> s == [c] && c != '"'
  {
    match ShortEscape(c)
    case Some(letter) => ['\\', letter]
    case None => if 0x20 <= c as int < 0x7F then [c] else UnicodeEscape(c)
  }

  function Escape(s: string): string
  {
    if s == [] then [] else EscapeChar(s[0]) + Escape(s[1..])
  }

  function Quote(s: string): string
  {
    "\"" + Escape(s) + "\""
  }

  function DumpValue(v: Json): string
  {
    match v
    case JNull => "null"
    case JBool(b) => if b then "true" else "false"
    case JInt(i) => IntToString(i)
    case JStr(s) => Quote(s)
  }

  function DumpMember(m: (string, Json)): string
  {
    Quote(m.0) + ":" + DumpValue(m.1)
  }

  function DumpMembers(obj: Object): string
  {
    if obj == [] then []
    else if |obj| == 1 then DumpMember(obj[0])
    else DumpMember(obj[0]) + "," + DumpMembers(obj[1..])
  }

  /** `json.dumps(obj, separators=(',', ':'))` for a flat object. */
  function Dumps(obj: Object): string
  {
    "{" + DumpMembers(obj) + "}"
  }

  // ---------------------------------------------------------------- reading

  /** The scanner's whitespace: space, tab, newline, carriage return. */
  predicate IsWs(c: char)
  {
    c == ' ' || c == '\t' || c == '\n' || c == '\r'
  }

  function SkipWs(s: string): (r: string)
    ensures |r| <= |s| && r == s[|s| - |r|..]
    ensures r != [] ==> !IsWs(r[0])
  {
    if s != [] && IsWs(s[0]) then SkipWs(s[1..]) else s
  }

  /** A hexadecimal digit of a `\u` escape; either case is accepted. */
  function HexValue(c: char): Option<int>
  {
    if '0' <= c <= '9' then Some(c as int - '0' as int)
    else if 'a' <= c <= 'f' then Some(c as int - 'a' as int + 10)
    else if 'A' <= c <= 'F' then Some(c as int - 'A' as int + 10)
    else None
  }

  function ParseHex4(s: string): (r: Option<int>)
    ensures r.Some? ==> |s| >= 4 && 0 <= r.value < 0x10000
  {
    if |s| < 4 then None
    else match (HexValue(s[0]), HexValue(s[1]), HexValue(s[2]), HexValue(s[3]))
      case (Some(a), Some(b), Some(c), Some(d)) =>
        if 0 <= a < 16 && 0 <= b < 16 && 0 <= c < 16 && 0 <= d < 16
        then Some(((a * 16 + b) * 16 + c) * 16 + d)
        else None
      case _ => None
  }

  /**
    The four hex digits after `\u` (and what follows them). A high surrogate
    must be followed by a `\u` low surrogate and the two combine into one
    character; a surrogate left alone cannot be a `char` here and is refused.
   */
  function ParseUnicodeEscape(s: string): (r: Option<(char, string)>)
    ensures r.Some? ==> |r.value.1| <= |s| - 4
  {
    match ParseHex4(s)
    case None => None
    case Some(u) =>
      if 0xD800 <= u < 0xDC00 then
        var t := s[4..];
        if |t| >= 2 && t[0] == '\\' && t[1] == 'u' then
          match ParseHex4(t[2..])
          case None => None
          case Some(low) =>
            if 0xDC00 <= low < 0xE000
            then Some(((0x10000 + (u - 0xD800) * 0x400 + (low - 0xDC00)) as char, t[6..]))
            else None
        else None
      else if 0xDC00 <= u < 0xE000 then None
      else Some((u as char, s[4..]))
  }

  /** The character a one-letter escape stands for. */
  function EscapedChar(letter: char): Option<char>
  {
    if letter == '"' || letter == '\\' || letter == '/' then Some(letter)
    else if letter == 'b' then Some(0x08 as char)
    else if letter == 'f' then Some(0x0C as char)
    else if letter == 'n' then Some('\n')
    else if letter == 'r' then Some('\r')
    else if letter == 't' then Some('\t')
    else None
  }

  /** The escape after a backslash. */
  function ParseEscape(s: string): (r: Option<(char, string)>)
    ensures r.Some? ==> |r.value.1| < |s|
  {
    if s == [] then None
    else if s[0] == 'u' then ParseUnicodeEscape(s[1..])
    else match EscapedChar(s[0])
      case None => None
      case Some(c) => Some((c, s[1..]))
  }

  /**
    The rest of a string after its opening quote, up to and including the
    closing quote. Control characters below U+0020 are refused (strict mode).
   */
  function ParseStringBody(s: string): (r: Option<(string, string)>)
    ensures r.Some? ==> |r.value.1| < |s|
    decreases |s|
  {
    if s == [] then None
    else if s[0] == '"' then Some(([], s[1..]))
    else if s[0] == '\\' then
      match ParseEscape(s[1..])
      case None => None
      case Some((c, rest)) =>
        match ParseStringBody(rest)
        case None => None
        case Some((t, after)) => Some(([c] + t, after))
    else if s[0] as int < 0x20 then None
    else
      match ParseStringBody(s[1..])
      case None => None
      case Some((t, after)) => Some(([s[0]] + t, after))
  }

  /** How many decimal digits `s` starts with. */
  function DigitRun(s: string): (n: nat)
    ensures n <= |s|
    ensures forall i :: 0 <= i < n ==> IsDigit(s[i])
    ensures n < |s| ==> !IsDigit(s[n])
  {
    if s == [] || !IsDigit(s[0]) then 0 else 1 + DigitRun(s[1..])
  }

  /** The value of a run of decimal digits. */
  function DigitsValue(ds: string): nat
    requires forall i :: 0 <= i < |ds| ==> IsDigit(ds[i])
  {
    if ds == [] then 0
    else
      assert IsDigit(ds[|ds| - 1]);
      DigitsValue(ds[..|ds| - 1]) * 10 + (ds[|ds| - 1] as int - '0' as int)
  }

  /**
    A JSON integer without its sign: `0` or a digit run without a leading
    zero. A fraction or exponent would make it a float, which this model does
    not carry, so a number followed by `.`, `e` or `E` is refused (inside an
    object such input is a float or an error for Python as well).
   */
  function ParseUnsigned(t: string): (r: Option<(nat, string)>)
    ensures r.Some? ==> |r.value.1| < |t|
  {
    if t == [] || !IsDigit(t[0]) then None
    else
      var len := if t[0] == '0' then 1 else DigitRun(t);
      var rest := t[len..];
      if rest != [] && (rest[0] == '.' || rest[0] == 'e' || rest[0] == 'E') then None
      else Some((DigitsValue(t[..len]), rest))
  }

  /** A JSON integer: an optional minus sign, then the digits. */
  function ParseNumber(s: string): (r: Option<(int, string)>)
    ensures r.Some? ==> |r.value.1| < |s|
  {
    if s != [] && s[0] == '-' then
      match ParseUnsigned(s[1..])
      case None => None
      case Some((n, rest)) => Some((-(n as int), rest))
    else
      match ParseUnsigned(s)
      case None => None
      case Some((n, rest)) => Some((n, rest))
  }

  /** A literal word such as `null`, dispatched on by its first letter. */
  function ParseWord(s: string, word: string, v: Json): (r: Option<(Json, string)>)
    requires word != []
    ensures r.Some? ==> |r.value.1| < |s|
  {
    if word <= s then Some((v, s[|word|..])) else None
  }

  /** One JSON value starting at the first character of `s`. */
  function ParseValue(s: string): (r: Option<(Json, string)>)
    ensures r.Some? ==> |r.value.1| < |s|
  {
    if s == [] then None
    else if s[0] == '"' then
      match ParseStringBody(s[1..])
      case None => None
      case Some((t, rest)) => Some((JStr(t), rest))
    else if s[0] == 'n' then ParseWord(s, "null", JNull)
    else if s[0] == 't' then ParseWord(s, "true", JBool(true))
    else if s[0] == 'f' then ParseWord(s, "false", JBool(false))
    else if s[0] == '-' || IsDigit(s[0]) then
      match ParseNumber(s)
      case None => None
      case Some((i, rest)) => Some((JInt(i), rest))
    else None
  }

  /**
    One member from its key's opening quote: the key, the colon and the
    value, with the whitespace around them; what is left starts where a
    comma or the closing brace should be.
   */
  function ParseMember(s: string): (r: Option<(string, Json, string)>)
    ensures r.Some? ==> |r.value.2| < |s|
  {
    if s == [] || s[0] != '"' then None
    else match ParseStringBody(s[1..])
      case None => None
      case Some((key, r1)) =>
        var r2 := SkipWs(r1);
        if r2 == [] || r2[0] != ':' then None
        else match ParseValue(SkipWs(r2[1..]))
          case None => None
          case Some((v, r3)) => Some((key, v, SkipWs(r3)))
  }

  /**
    The members of an object up to and including the closing brace, added
    to `acc` as `dict` assignment does (a repeated key keeps its first place
    and takes its last value).
   */
  function ParseMembers(s: string, acc: Object): (r: Option<(Object, string)>)
    ensures r.Some? ==> |r.value.1| < |s|
    decreases |s|
  {
    match ParseMember(s)
    case None => None
    case Some((key, v, r)) =>
      var obj := Put(acc, key, v);
      if r != [] && r[0] == '}' then Some((obj, r[1..]))
      else if r != [] && r[0] == ',' then ParseMembers(SkipWs(r[1..]), obj)
      else None
  }

  /** An object starting at its opening brace. */
  function ParseObject(s: string): (r: Option<(Object, string)>)
    ensures r.Some? ==> |r.value.1| < |s|
  {
    if s == [] || s[0] != '{' then None
    else
      var t := SkipWs(s[1..]);
      if t != [] && t[0] == '}' then Some(([], t[1..]))
      else ParseMembers(t, [])
  }

  /**
    `json.loads(text)` where the caller goes on to treat the result as a
    dict: any other document, malformed text or trailing data gives None.
   */
  function LoadsObject(text: string): Option<Object>
  {
    var s := SkipWs(text);
    match ParseObject(s)
    case None => None
    case Some((obj, rest)) => if SkipWs(rest) == [] then Some(obj) else None
  }

  // ---------------------------------------------------------------- round trip

  lemma {:induction false} NatDigitsValue(n: nat)
    ensures DigitsValue(NatToString(n)) == n
    decreases n
  {
    if n >= 10 {
      var s := NatToString(n);
      assert s[..|s| - 1] == NatToString(n / 10);
      NatDigitsValue(n / 10);
    }
  }

  /** What may follow a written integer without changing how it reads back. */
  predicate EndsNumber(rest: string)
  {
    rest == [] || !(IsDigit(rest[0]) || rest[0] == '.' || rest[0] == 'e' || rest[0] == 'E')
  }

  lemma ParseUnsignedNat(n: nat, rest: string)
    requires EndsNumber(rest)
    ensures ParseUnsigned(NatToString(n) + rest) == Some((n, rest))
  {
    var ds := NatToString(n);
    var t := ds + rest;
    assert t[..|ds|] == ds && t[|ds|..] == rest;
    assert |ds| < |t| ==> t[|ds|] == rest[0];
    NatDigitsValue(n);
  }

  /** `ParseNumber` in terms of `ParseUnsigned`, for a text with or without its minus sign. */
  lemma ParseNumberSteps(s: string, u: string, negative: bool, n: nat, rest: string)
    requires negative ==> s == ['-'] + u
    requires !negative ==> s == u && u != [] && u[0] != '-'
    requires ParseUnsigned(u) == Some((n, rest))
    ensures ParseNumber(s) == Some((if negative then -(n as int) else n as int, rest))
  {
    if negative {
      assert s[0] == '-' && s[1..] == u;
    }
  }

  lemma Associate(a: string, b: string, c: string)
    ensures (a + b) + c == a + (b + c)
  {
  }

  lemma ParseNegativeInt(i: int, rest: string)
    requires i < 0 && EndsNumber(rest)
    ensures ParseNumber(IntToString(i) + rest) == Some((i, rest))
  {
    var ds := NatToString(-i);
    var u := ds + rest;
    assert IntToString(i) + rest == ['-'] + u by {
      assert IntToString(i) == ['-'] + ds;
      Associate(['-'], ds, rest);
    }
    assert ParseUnsigned(u) == Some((-i, rest)) by {
      ParseUnsignedNat(-i, rest);
    }
    ParseNumberSteps(IntToString(i) + rest, u, true, -i, rest);
  }

  lemma ParseNonNegativeInt(i: int, rest: string)
    requires i >= 0 && EndsNumber(rest)
    ensures ParseNumber(IntToString(i) + rest) == Some((i, rest))
  {
    var u := NatToString(i) + rest;
    assert IntToString(i) + rest == u;
    assert u != [] && u[0] != '-' by {
      assert u[0] == NatToString(i)[0];
    }
    assert ParseUnsigned(u) == Some((i, rest)) by {
      ParseUnsignedNat(i, rest);
    }
    ParseNumberSteps(u, u, false, i, rest);
  }

  /** An integer written by `json.dumps` reads back as itself. */
  lemma ParseNumberInt(i: int, rest: string)
    requires EndsNumber(rest)
    ensures ParseNumber(IntToString(i) + rest) == Some((i, rest))
  {
    if i < 0 {
      ParseNegativeInt(i, rest);
    } else {
      ParseNonNegativeInt(i, rest);
    }
  }

  lemma HexDigitValue(d: int)
    requires 0 <= d < 16
    ensures HexValue(HexDigit(d)) == Some(d)
  {
  }

  /** The four hexadecimal digits of `n` spell `n` back. */
  lemma Hex4Arithmetic(n: int)
    requires 0 <= n < 0x10000
    ensures 0 <= n / 0x1000 < 16 && 0 <= n / 0x100 % 16 < 16 && 0 <= n / 0x10 % 16 < 16 && 0 <= n % 16 < 16
    ensures ((n / 0x1000 * 16 + n / 0x100 % 16) * 16 + n / 0x10 % 16) * 16 + n % 16 == n
  {
    var q1, q2, q3 := n / 0x10, n / 0x100, n / 0x1000;
    assert n == q1 * 16 + n % 16;
    assert q1 / 16 == q2 && q1 == q2 * 16 + q1 % 16;
    assert q2 / 16 == q3 && q2 == q3 * 16 + q2 % 16;
  }

  lemma ParseHex4Hex4(n: int, rest: string)
    requires 0 <= n < 0x10000
    ensures ParseHex4(Hex4(n) + rest) == Some(n)
  {
    Hex4Arithmetic(n);
    var a, b, c, d := n / 0x1000, n / 0x100 % 16, n / 0x10 % 16, n % 16;
    HexDigitValue(a);
    HexDigitValue(b);
    HexDigitValue(c);
    HexDigitValue(d);
    var s := Hex4(n) + rest;
    assert s[0] == HexDigit(a) && s[1] == HexDigit(b) && s[2] == HexDigit(c) && s[3] == HexDigit(d);
  }

  lemma ParseEscapeU(x: string)
    ensures ParseEscape(['u'] + x) == ParseUnicodeEscape(x)
  {
    assert (['u'] + x)[1..] == x;
  }

  /** A `\uXXXX` escape of a character of the Basic Multilingual Plane reads back. */
  lemma ParseBmpEscape(c: char, rest: string)
    requires c as int < 0x10000
    ensures ParseEscape(UnicodeEscape(c)[1..] + rest) == Some((c, rest))
  {
    var x := Hex4(c as int) + rest;
    ParseHex4Hex4(c as int, rest);
    assert x[4..] == rest;
    assert UnicodeEscape(c)[1..] + rest == ['u'] + x;
    ParseEscapeU(x);
  }

  /** The code point a surrogate pair stands for, split into its two halves and put back together. */
  lemma SurrogateHalves(n: int)
    requires 0x10000 <= n < 0x110000
    ensures var m := n - 0x10000;
      var hi := 0xD800 + m / 0x400;
      var lo := 0xDC00 + m % 0x400;
      0xD800 <= hi < 0xDC00 && 0xDC00 <= lo < 0xE000 &&
      0x10000 + (hi - 0xD800) * 0x400 + (lo - 0xDC00) == n
  {
  }

  /** A high surrogate, `\u` and a low surrogate read as one character. */
  lemma ParsePairStep(x: string, hi: int, lo: int, rest: string)
    requires 0xD800 <= hi < 0xDC00 && 0xDC00 <= lo < 0xE000
    requires ParseHex4(x) == Some(hi)
    requires |x| >= 10 && x[4] == '\\' && x[5] == 'u'
    requires ParseHex4(x[6..]) == Some(lo) && x[10..] == rest
    ensures ParseUnicodeEscape(x) == Some(((0x10000 + (hi - 0xD800) * 0x400 + (lo - 0xDC00)) as char, rest))
  {
    var t := x[4..];
    assert t[2..] == x[6..];
    assert t[6..] == x[10..];
  }

  /** Where the pieces of `XXXX\\uYYYY` followed by more text sit. */
  lemma PairLayout(h: string, l: string, rest: string)
    requires |h| == 4 && |l| == 4
    ensures var x := h + ((['\\', 'u'] + l) + rest);
      |x| >= 10 && x[4] == '\\' && x[5] == 'u' && x[6..] == l + rest && x[10..] == rest
  {
  }

  /** Dropping the backslash of `\\uXXXX` followed by more text. */
  lemma EscapeTail(h: string, e: string, rest: string)
    ensures (['\\', 'u'] + h + e)[1..] + rest == ['u'] + (h + (e + rest))
  {
  }

  /** Beyond the BMP, `ensure_ascii` writes the high surrogate's escape and then the low one's. */
  lemma UnicodeEscapeAbove(c: char)
    requires c as int >= 0x10000
    ensures var m := c as int - 0x10000;
      UnicodeEscape(c) == ['\\', 'u'] + Hex4(0xD800 + m / 0x400) + UEscape(0xDC00 + m % 0x400)
  {
  }

  /** A surrogate pair written for a character beyond the BMP reads back as that character. */
  lemma ParseSurrogatePair(c: char, rest: string)
    requires c as int >= 0x10000
    ensures ParseEscape(UnicodeEscape(c)[1..] + rest) == Some((c, rest))
  {
    var n := c as int;
    var m := n - 0x10000;
    var hi := 0xD800 + m / 0x400;
    var lo := 0xDC00 + m % 0x400;
    SurrogateHalves(n);
    var x := Hex4(hi) + (UEscape(lo) + rest);
    assert ParseHex4(x) == Some(hi) by {
      ParseHex4Hex4(hi, UEscape(lo) + rest);
    }
    assert |x| >= 10 && x[4] == '\\' && x[5] == 'u' && x[6..] == Hex4(lo) + rest && x[10..] == rest by {
      PairLayout(Hex4(hi), Hex4(lo), rest);
    }
    assert ParseHex4(x[6..]) == Some(lo) by {
      ParseHex4Hex4(lo, rest);
    }
    assert ParseUnicodeEscape(x) == Some((c, rest)) by {
      ParsePairStep(x, hi, lo, rest);
    }
    assert UnicodeEscape(c)[1..] + rest == ['u'] + x by {
      UnicodeEscapeAbove(c);
      EscapeTail(Hex4(hi), UEscape(lo), rest);
    }
    ParseEscapeU(x);
  }

  /** The scanner undoes every two-character escape `json.dumps` writes. */
  lemma EscapedShortEscape(c: char)
    requires ShortEscape(c).Some?
    ensures EscapedChar(ShortEscape(c).value) == Some(c)
  {
  }

  /** A two-character escape reads back as the character it stands for. */
  lemma ParseShortEscape(c: char, rest: string)
    requires ShortEscape(c).Some?
    ensures ParseEscape([ShortEscape(c).value] + rest) == Some((c, rest))
  {
    EscapedShortEscape(c);
    assert ([ShortEscape(c).value] + rest)[1..] == rest;
  }

  /** Every escape `json.dumps` writes reads back as the character it stands for. */
  lemma ParseEscapeChar(c: char, rest: string)
    requires EscapeChar(c)[0] == '\\'
    ensures ParseEscape(EscapeChar(c)[1..] + rest) == Some((c, rest))
  {
    if ShortEscape(c).Some? {
      ParseShortEscape(c, rest);
      assert EscapeChar(c)[1..] + rest == [ShortEscape(c).value] + rest;
    } else if c as int < 0x10000 {
      ParseBmpEscape(c, rest);
    } else {
      ParseSurrogatePair(c, rest);
    }
  }

  /** A character the scanner takes as itself, in front of the rest of a string. */
  lemma StringStepPlain(c: char, tail: string, t: string, after: string)
    requires c != '"' && c != '\\' && c as int >= 0x20
    requires ParseStringBody(tail) == Some((t, after))
    ensures ParseStringBody([c] + tail) == Some(([c] + t, after))
  {
    assert ([c] + tail)[1..] == tail;
  }

  /** An escape in front of the rest of a string. */
  lemma StringStepEscape(e: string, tail: string, c: char, t: string, after: string)
    requires e != [] && e[0] == '\\'
    requires ParseEscape(e[1..] + tail) == Some((c, tail))
    requires ParseStringBody(tail) == Some((t, after))
    ensures ParseStringBody(e + tail) == Some(([c] + t, after))
  {
    assert (e + tail)[1..] == e[1..] + tail;
  }

  lemma EscapeLayout(s: string, rest: string)
    requires s != []
    ensures Escape(s) + "\"" + rest == EscapeChar(s[0]) + (Escape(s[1..]) + "\"" + rest)
  {
  }

  /** A string written by `json.dumps` reads back as itself. */
  lemma {:induction false} ParseQuoted(s: string, rest: string)
    ensures ParseStringBody(Escape(s) + "\"" + rest) == Some((s, rest))
  {
    if s == [] {
      assert Escape(s) + "\"" + rest == ['"'] + rest;
    } else {
      var c, e := s[0], EscapeChar(s[0]);
      var tail := Escape(s[1..]) + "\"" + rest;
      assert Escape(s) + "\"" + rest == e + tail by {
        EscapeLayout(s, rest);
      }
      assert ParseStringBody(tail) == Some((s[1..], rest)) by {
        ParseQuoted(s[1..], rest);
      }
      assert ParseStringBody(e + tail) == Some(([c] + s[1..], rest)) by {
        if e[0] == '\\' {
          ParseEscapeChar(c, tail);
          StringStepEscape(e, tail, c, s[1..], rest);
        } else {
          StringStepPlain(c, tail, s[1..], rest);
        }
      }
      assert [c] + s[1..] == s;
    }
  }

  /** What follows a member's value in a written object: a comma or the closing brace. */
  predicate EndsValue(rest: string)
  {
    rest != [] && (rest[0] == ',' || rest[0] == '}')
  }

  lemma ParseWordOf(word: string, v: Json, rest: string)
    requires word != []
    ensures ParseWord(word + rest, word, v) == Some((v, rest))
  {
    assert word <= word + rest;
    assert (word + rest)[|word|..] == rest;
  }

  /** `ParseValue` hands text starting with a sign or a digit to `ParseNumber`. */
  lemma ParseValueNumber(s: string, i: int, rest: string)
    requires s != [] && (s[0] == '-' || IsDigit(s[0]))
    requires ParseNumber(s) == Some((i, rest))
    ensures ParseValue(s) == Some((JInt(i), rest))
  {
  }

  lemma ParseDumpedInt(i: int, rest: string)
    requires EndsValue(rest)
    ensures ParseValue(IntToString(i) + rest) == Some((JInt(i), rest))
  {
    var s := IntToString(i) + rest;
    assert s != [] && (s[0] == '-' || IsDigit(s[0])) by {
      assert s[0] == IntToString(i)[0];
      if i >= 0 {
        assert IsDigit(NatToString(i)[0]);
      }
    }
    assert ParseNumber(s) == Some((i, rest)) by {
      ParseNumberInt(i, rest);
    }
    ParseValueNumber(s, i, rest);
  }

  lemma ParseDumpedString(t: string, rest: string)
    ensures ParseValue(Quote(t) + rest) == Some((JStr(t), rest))
  {
    ParseQuoted(t, rest);
    var s := Quote(t) + rest;
    assert s[0] == '"' && s[1..] == Escape(t) + "\"" + rest;
  }

  /** Every value written by `json.dumps` reads back as itself. */
  lemma ParseDumpedValue(v: Json, rest: string)
    requires EndsValue(rest)
    ensures ParseValue(DumpValue(v) + rest) == Some((v, rest))
  {
    match v
    case JNull =>
      ParseWordOf("null", v, rest);
    case JBool(b) =>
      if b {
        ParseWordOf("true", v, rest);
      } else {
        ParseWordOf("false", v, rest);
      }
    case JInt(i) =>
      ParseDumpedInt(i, rest);
    case JStr(t) =>
      ParseDumpedString(t, rest);
  }

  lemma SkipNoWs(s: string)
    requires s != [] && !IsWs(s[0])
    ensures SkipWs(s) == s
  {
  }

  /** How `ParseMember` reads a key, a colon directly after it and a value directly after that. */
  lemma ParseMemberSteps(s: string, key: string, r1: string, v: Json, r3: string)
    requires s != [] && s[0] == '"' && ParseStringBody(s[1..]) == Some((key, r1))
    requires r1 != [] && r1[0] == ':' && r1[1..] != [] && !IsWs(r1[1..][0])
    requires ParseValue(r1[1..]) == Some((v, r3)) && r3 != [] && !IsWs(r3[0])
    ensures ParseMember(s) == Some((key, v, r3))
  {
    SkipNoWs(r1);
    SkipNoWs(r1[1..]);
    SkipNoWs(r3);
  }

  lemma MemberLayout(k: string, v: Json, after: string)
    ensures DumpMember((k, v)) + after == ['"'] + (Escape(k) + "\"" + ([':'] + (DumpValue(v) + after)))
  {
    QuotedLayout(Escape(k), DumpValue(v), after);
  }

  lemma QuotedLayout(q: string, d: string, after: string)
    ensures "\"" + q + "\"" + ":" + d + after == ['"'] + (q + "\"" + ([':'] + (d + after)))
  {
  }

  /** One written member reads back as its key and value. */
  lemma ParseDumpedMember(k: string, v: Json, after: string)
    requires EndsValue(after)
    ensures ParseMember(DumpMember((k, v)) + after) == Some((k, v, after))
  {
    var value := DumpValue(v) + after;
    var r1 := [':'] + value;
    var s := DumpMember((k, v)) + after;
    MemberLayout(k, v, after);
    assert s[1..] == Escape(k) + "\"" + r1;
    ParseQuoted(k, r1);
    assert r1[1..] == value;
    assert value[0] == DumpValue(v)[0];
    ParseDumpedValue(v, after);
    ParseMemberSteps(s, k, r1, v, after);
  }

  lemma Regroup(a: string, b: string, c: string, d: string, e: string)
    ensures a + b + c + d + e == a + (b + (c + d + e))
  {
  }

  lemma MembersLayout(obj: Object, rest: string)
    requires |obj| > 1
    ensures DumpMembers(obj) + "}" + rest == DumpMember(obj[0]) + ([','] + (DumpMembers(obj[1..]) + "}" + rest))
  {
    var first := DumpMember(obj[0]);
    var others := DumpMembers(obj[1..]);
    assert DumpMembers(obj) == first + "," + others;
    Regroup(first, ",", others, "}", rest);
  }

  /** How `ParseMembers` goes on after a member followed by a comma. */
  lemma ParseMembersSteps(s: string, acc: Object, key: string, v: Json, r: string)
    requires ParseMember(s) == Some((key, v, r)) && r != [] && r[0] == ','
    requires r[1..] != [] && !IsWs(r[1..][0])
    ensures ParseMembers(s, acc) == ParseMembers(r[1..], Put(acc, key, v))
  {
    assert ParseMembers(s, acc) == ParseMembers(SkipWs(r[1..]), Put(acc, key, v));
    assert SkipWs(r[1..]) == r[1..] by {
      SkipNoWs(r[1..]);
    }
  }

  /** The last member of a written object, followed by its closing brace. */
  lemma ParseLastMember(k: string, v: Json, acc: Object, rest: string)
    requires k !in Keys(acc)
    ensures ParseMembers(DumpMembers([(k, v)]) + "}" + rest, acc) == Some((acc + [(k, v)], rest))
  {
    var after := ['}'] + rest;
    ParseDumpedMember(k, v, after);
    assert DumpMembers([(k, v)]) + "}" + rest == DumpMember((k, v)) + after;
    assert after[1..] == rest;
  }

  /** Keys not yet read stay unread after reading a different key. */
  lemma FreshKeys(obj: Object, acc: Object)
    requires obj != [] && DistinctKeys(obj)
    requires forall i :: 0 <= i < |obj| ==> obj[i].0 !in Keys(acc)
    ensures forall i :: 0 <= i < |obj[1..]| ==> obj[1..][i].0 !in Keys(acc + [obj[0]])
  {
    KeysAppend(acc, [obj[0]]);
    forall i | 0 <= i < |obj[1..]|
      ensures obj[1..][i].0 !in Keys(acc + [obj[0]])
    {
      assert obj[1..][i] == obj[i + 1];
    }
  }

  lemma AppendFirst<T>(a: seq<T>, b: seq<T>)
    requires b != []
    ensures a + [b[0]] + b[1..] == a + b
  {
  }

  /** The step of `ParseDumpedMembers` for a member that has others after it. */
  lemma ParseMemberThenMore(obj: Object, acc: Object, rest: string)
    requires |obj| > 1 && obj[0].0 !in Keys(acc)
    ensures ParseMembers(DumpMembers(obj) + "}" + rest, acc)
         == ParseMembers(DumpMembers(obj[1..]) + "}" + rest, acc + [obj[0]])
  {
    var k := obj[0].0;
    var v := obj[0].1;
    var t := DumpMembers(obj[1..]) + "}" + rest;
    var after := [','] + t;
    var s := DumpMembers(obj) + "}" + rest;
    assert ParseMember(s) == Some((k, v, after)) by {
      MembersLayout(obj, rest);
      ParseDumpedMember(k, v, after);
    }
    assert after[1..] == t && t[0] == '"';
    ParseMembersSteps(s, acc, k, v, after);
    assert Put(acc, k, v) == acc + [(k, v)];
  }

  /**
    The members of a written object read back in order; with keys distinct
    from each other and from those read so far, each one is appended.
   */
  lemma {:induction false} ParseDumpedMembers(obj: Object, acc: Object, rest: string)
    requires obj != [] && DistinctKeys(obj)
    requires forall i :: 0 <= i < |obj| ==> obj[i].0 !in Keys(acc)
    ensures ParseMembers(DumpMembers(obj) + "}" + rest, acc) == Some((acc + obj, rest))
    decreases |obj|
  {
    if |obj| == 1 {
      ParseLastMember(obj[0].0, obj[0].1, acc, rest);
      assert [(obj[0].0, obj[0].1)] == obj;
    } else {
      ParseMemberThenMore(obj, acc, rest);
      FreshKeys(obj, acc);
      ParseDumpedMembers(obj[1..], acc + [obj[0]], rest);
      AppendFirst(acc, obj);
    }
  }

  /** `json.loads("{}")` is the empty dict. */
  lemma LoadsEmpty()
    ensures LoadsObject("{}") == Some([])
  {
    var text := "{}";
    SkipNoWs(text);
    assert text[1..] == "}";
    SkipNoWs(text[1..]);
    assert text[1..][1..] == [];
  }

  /** How `LoadsObject` reads a document that is one non-empty object and nothing else. */
  lemma LoadsSteps(text: string, obj: Object)
    requires text != [] && text[0] == '{'
    requires text[1..] != [] && text[1..][0] == '"'
    requires ParseMembers(text[1..], []) == Some((obj, []))
    ensures LoadsObject(text) == Some(obj)
  {
    assert ParseObject(text) == Some((obj, [])) by {
      SkipNoWs(text[1..]);
    }
    SkipNoWs(text);
    var none: string := [];
    assert SkipWs(none) == none;
  }

  /** `json.loads(json.dumps(d)) == d` for a flat dict. */
  lemma LoadsDumps(obj: Object)
    requires DistinctKeys(obj)
    ensures LoadsObject(Dumps(obj)) == Some(obj)
  {
    var text := Dumps(obj);
    if obj == [] {
      assert text == "{}";
      LoadsEmpty();
    } else {
      var none: string := [];
      var members := DumpMembers(obj);
      assert text[1..] == members + "}" + none by {
        assert text == ['{'] + (members + "}" + none);
      }
      assert ParseMembers(text[1..], []) == Some((obj, none)) by {
        var empty: Object := [];
        ParseDumpedMembers(obj, empty, none);
        assert empty + obj == obj;
      }
      LoadsSteps(text, obj);
    }
  }
}
