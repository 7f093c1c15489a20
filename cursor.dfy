/**
  The opaque page cursor of golf_api/utils/firestore_pagination.py: a dict of
  the last item's order-by values, written as compact JSON, UTF-8 encoded and
  wrapped in URL-safe base64; datetimes travel as UTC ISO-8601 strings and
  are turned back into datetimes when the cursor is read.
 */
module Cursor {
  import opened Wrappers
  import opened Dicts
  import opened Json
  import Base64Url
  import Utf8
  import opened Bytes

  /**
    A `datetime` at microsecond resolution: the wall-clock reading and the
    UTC offset, both in microseconds; `offset == None` is a naive datetime.
   */
  datatype DateTime = DateTime(wall: int, offset: Option<int>)

  /**
    The instant a datetime denotes, in microseconds since the epoch, with a
    naive datetime read as UTC (`replace(tzinfo=timezone.utc)`).
   */
  function Instant(dt: DateTime): int
  {
    match dt.offset
    case None => dt.wall
    case Some(off) => dt.wall - off
  }

  /** `astimezone(timezone.utc)` after treating a naive datetime as UTC. */
  function ToUtc(dt: DateTime): (u: DateTime)
    ensures u.offset == Some(0) && Instant(u) == Instant(dt)
  {
    DateTime(Instant(dt), Some(0))
  }

  /**
    A value held in a document field or a cursor: what JSON carries natively,
    a datetime, or an object `json.dumps` cannot write (reported by its type
    name); floats, lists and dicts are not modelled.
   */
  datatype Value =
    | Null
    | Bool(b: bool)
    | Int(i: int)
    | Str(s: string)
    | Time(t: DateTime)
    | Unserializable(typeName: string)

  /**
    `datetime.isoformat()` of an aware UTC datetime, given by its instant,
    and `datetime.fromisoformat`, which this model takes as given.
   */
  datatype IsoCodec = IsoCodec(format: int -> string, parse: string -> Option<DateTime>)

  /**
    What the model relies on from the datetime library: the ISO form of a
    UTC datetime has a `T` between date and time, writes its offset as
    `+00:00` rather than `Z`, and parses back to the same UTC datetime.
   */
  ghost predicate ValidIso(iso: IsoCodec)
  {
    forall u: int ::
      'T' in iso.format(u) && 'Z' !in iso.format(u) && iso.parse(iso.format(u)) == Some(DateTime(u, Some(0)))
  }

  /** The message of the `TypeError` `_json_default` raises. */
  function NotSerializableMessage(typeName: string): string
  {
    "Not JSON serializable: <class '" + typeName + "'>"
  }

  /**
    `_json_default`, called by `json.dumps` for what it cannot write itself:
    a datetime becomes its UTC ISO string (a naive one read as UTC), anything
    else is a `TypeError`.
   */
  function JsonDefault(iso: IsoCodec, v: Value): (r: Result<Json, string>)
    requires v.Time? || v.Unserializable?
    ensures v.Time? ==> r == Success(JStr(iso.format(Instant(v.t))))
    ensures v.Unserializable? ==> r == Failure(NotSerializableMessage(v.typeName))
    ensures ValidIso(iso) && v.Time? ==> r.Success? && r.value.JStr? && iso.parse(r.value.s) == Some(ToUtc(v.t))
  {
    match v
    case Time(dt) => Success(JStr(iso.format(Instant(dt))))
    case Unserializable(t) => Failure(NotSerializableMessage(t))
  }

  /** How `json.dumps(..., default=_json_default)` sees one value. */
  function ToJson(iso: IsoCodec, v: Value): (r: Result<Json, string>)
    ensures r.Success? <==> !v.Unserializable?
  {
    match v
    case Null => Success(JNull)
    case Bool(b) => Success(JBool(b))
    case Int(i) => Success(JInt(i))
    case Str(s) => Success(JStr(s))
    case _ => JsonDefault(iso, v)
  }

  /** The values of a dict in order; the first one that cannot be written fails the whole dump. */
  function ToJsonObject(iso: IsoCodec, d: Dict<Value>): (r: Result<Object, string>)
    ensures r.Success? ==> Keys(r.value) == Keys(d)
    ensures r.Success? <==> forall i :: 0 <= i < |d| ==> ToJson(iso, d[i].1).Success?
  {
    if d == [] then Success([])
    else match ToJson(iso, d[0].1)
      case Failure(e) => Failure(e)
      case Success(j) =>
        match ToJsonObject(iso, d[1..])
        case Failure(e) => Failure(e)
        case Success(rest) => Success([(d[0].0, j)] + rest)
  }

  /**
    `encode_cursor(values)`:
    `urlsafe_b64encode(json.dumps(values, separators=(',', ':'), default=_json_default).encode()).decode()`.
   */
  function EncodeCursor(iso: IsoCodec, values: Dict<Value>): (r: Result<string, string>)
    ensures r.Success? <==> forall i :: 0 <= i < |values| ==> !values[i].1.Unserializable?
    ensures r.Success? ==> |r.value| % 4 == 0
  {
    match ToJsonObject(iso, values)
    case Failure(e) => Failure(e)
    case Success(obj) =>
      var raw := Utf8.Encode(Dumps(obj));
      Base64Url.EncodeWholeGroups(raw);
      Success(Base64Url.Encode(raw))
  }

  /** `s.replace('Z', '+00:00')`. */
  function ReplaceZ(s: string): (r: string)
    ensures 'Z' !in r
  {
    if s == [] then []
    else (if s[0] == 'Z' then "+00:00" else [s[0]]) + ReplaceZ(s[1..])
  }

  /**
    `_maybe_parse_datetime`: a string containing `T` that parses as an ISO
    datetime (with `Z` read as `+00:00`) becomes that datetime in UTC, a
    naive one read as UTC; anything else, a failed parse included, is kept.
   */
  function MaybeParseDatetime(iso: IsoCodec, v: Value): (r: Value)
    ensures r != v ==> v.Str? && 'T' in v.s && r.Time? && r.t.offset == Some(0)
  {
    match v
    case Str(s) =>
      if 'T' in s then
        match iso.parse(ReplaceZ(s))
        case Some(dt) => Time(ToUtc(dt))
        case None => v
      else v
    case _ => v
  }

  /** A decoded JSON value as Python holds it. */
  function FromJson(j: Json): Value
  {
    match j
    case JNull => Null
    case JBool(b) => Bool(b)
    case JInt(i) => Int(i)
    case JStr(s) => Str(s)
  }

  /** `{k: _maybe_parse_datetime(v) for k, v in values.items()}`. */
  function ParseValues(iso: IsoCodec, obj: Object): (d: Dict<Value>)
    ensures Keys(d) == Keys(obj)
    ensures forall i :: 0 <= i < |d| ==> !d[i].1.Unserializable? && (d[i].1.Time? ==> d[i].1.t.offset == Some(0))
  {
    if obj == [] then []
    else [(obj[0].0, MaybeParseDatetime(iso, FromJson(obj[0].1)))] + ParseValues(iso, obj[1..])
  }

  /**
    `decode_cursor(cursor)`: base64, UTF-8 and JSON decoding in turn; `None`
    wherever Python raises (bad base64, bad UTF-8, bad JSON, or a document
    that is not an object).
   */
  function DecodeCursor(iso: IsoCodec, cursor: string): (r: Option<Dict<Value>>)
    ensures r.Some? ==> forall i :: 0 <= i < |r.value| ==>
      !r.value[i].1.Unserializable? && (r.value[i].1.Time? ==> r.value[i].1.t.offset == Some(0))
  {
    match Base64Url.Decode(cursor)
    case None => None
    case Some(raw) =>
      match Utf8.Decode(raw)
      case None => None
      case Some(text) =>
        match LoadsObject(text)
        case None => None
        case Some(obj) => Some(ParseValues(iso, obj))
  }

  // ---------------------------------------------------------------- round trip

  /** What a value comes back as: a datetime as the same instant in UTC, anything else as itself. */
  function Normalise(v: Value): Value
  {
    if v.Time? then Time(ToUtc(v.t)) else v
  }

  function NormaliseAll(d: Dict<Value>): (r: Dict<Value>)
    ensures |r| == |d|
    ensures forall i :: 0 <= i < |d| ==> r[i] == (d[i].0, Normalise(d[i].1))
  {
    if d == [] then [] else [(d[0].0, Normalise(d[0].1))] + NormaliseAll(d[1..])
  }

  /** A string `_maybe_parse_datetime` leaves alone. */
  predicate NotIsoLooking(iso: IsoCodec, v: Value)
  {
    v.Str? ==> 'T' !in v.s || iso.parse(ReplaceZ(v.s)).None?
  }

  /** A value the cursor carries faithfully: serialisable, and not a string that reads as a datetime. */
  predicate Carried(iso: IsoCodec, v: Value)
  {
    !v.Unserializable? && NotIsoLooking(iso, v)
  }

  /** Reading a key of a normalised dict gives the normalised value stored under it. */
  lemma {:induction false} GetNormalised(d: Dict<Value>, k: string)
    ensures Get(NormaliseAll(d), k) == if Get(d, k).Some? then Some(Normalise(Get(d, k).value)) else None
  {
    if d != [] && d[0].0 != k {
      GetNormalised(d[1..], k);
      assert NormaliseAll(d)[1..] == NormaliseAll(d[1..]);
    }
  }

  lemma ReplaceZNone(s: string)
    requires 'Z' !in s
    ensures ReplaceZ(s) == s
  {
    if s != [] {
      assert s[0] != 'Z' && 'Z' !in s[1..];
      ReplaceZNone(s[1..]);
    }
  }

  /** One carried value comes back as its normal form. */
  lemma ValueRoundTrip(iso: IsoCodec, v: Value)
    requires ValidIso(iso) && Carried(iso, v)
    ensures ToJson(iso, v).Success?
    ensures MaybeParseDatetime(iso, FromJson(ToJson(iso, v).value)) == Normalise(v)
  {
    if v.Time? {
      var u := Instant(v.t);
      var text := iso.format(u);
      assert 'T' in text && 'Z' !in text && iso.parse(text) == Some(DateTime(u, Some(0)));
      ReplaceZNone(text);
    }
  }

  lemma {:induction false} ParseValuesRoundTrip(iso: IsoCodec, d: Dict<Value>)
    requires ValidIso(iso)
    requires forall i :: 0 <= i < |d| ==> Carried(iso, d[i].1)
    ensures ToJsonObject(iso, d).Success?
    ensures ParseValues(iso, ToJsonObject(iso, d).value) == NormaliseAll(d)
  {
    if d != [] {
      ValueRoundTrip(iso, d[0].1);
      ParseValuesRoundTrip(iso, d[1..]);
    }
  }

  /** `decode_cursor` of text that decodes at each stage. */
  lemma DecodeSteps(iso: IsoCodec, cursor: string, raw: seq<byte>, text: string, obj: Object)
    requires Base64Url.Decode(cursor) == Some(raw)
    requires Utf8.Decode(raw) == Some(text)
    requires LoadsObject(text) == Some(obj)
    ensures DecodeCursor(iso, cursor) == Some(ParseValues(iso, obj))
  {
  }

  /** The keys of a dict survive its conversion to JSON, so they stay distinct. */
  lemma ToJsonDistinct(iso: IsoCodec, d: Dict<Value>)
    requires DistinctKeys(d) && ToJsonObject(iso, d).Success?
    ensures DistinctKeys(ToJsonObject(iso, d).value)
  {
    var obj := ToJsonObject(iso, d).value;
    assert forall i :: 0 <= i < |obj| ==> obj[i].0 == Keys(obj)[i] == Keys(d)[i] == d[i].0;
  }

  /**
    `decode_cursor(encode_cursor(d))` gives back `d`, with datetimes as the
    same instants in UTC, for a dict of serialisable values none of which is
    a string that reads as an ISO datetime.
   */
  lemma DecodeEncode(iso: IsoCodec, d: Dict<Value>)
    requires ValidIso(iso) && DistinctKeys(d)
    requires forall i :: 0 <= i < |d| ==> Carried(iso, d[i].1)
    ensures EncodeCursor(iso, d).Success?
    ensures DecodeCursor(iso, EncodeCursor(iso, d).value) == Some(NormaliseAll(d))
  {
    ParseValuesRoundTrip(iso, d);
    var obj := ToJsonObject(iso, d).value;
    ToJsonDistinct(iso, d);
    var text := Dumps(obj);
    var raw := Utf8.Encode(text);
    var cursor := Base64Url.Encode(raw);
    assert EncodeCursor(iso, d) == Success(cursor);
    LoadsDumps(obj);
    Utf8.DecodeEncode(text);
    Base64Url.DecodeEncode(raw);
    DecodeSteps(iso, cursor, raw, text, obj);
  }

  /**
    A datetime comes back as the same instant in UTC; a naive one comes back
    as if it had been written in UTC.
   */
  lemma DatetimeRoundTrip(iso: IsoCodec, key: string, dt: DateTime)
    requires ValidIso(iso)
    ensures EncodeCursor(iso, [(key, Time(dt))]).Success?
    ensures DecodeCursor(iso, EncodeCursor(iso, [(key, Time(dt))]).value)
         == Some([(key, Time(DateTime(Instant(dt), Some(0))))])
    ensures dt.offset.None? ==> Instant(dt) == dt.wall
  {
    var d := [(key, Time(dt))];
    DecodeEncode(iso, d);
    assert NormaliseAll(d) == [(key, Time(DateTime(Instant(dt), Some(0))))];
  }

  /**
    Why the round trip excludes ISO-looking strings: a string value containing
    `T` that parses as a datetime is read back as a datetime, not a string.
   */
  lemma IsoLookingStringComesBackAsTime(iso: IsoCodec, key: string, s: string, dt: DateTime)
    requires 'T' in s && iso.parse(ReplaceZ(s)) == Some(dt)
    ensures EncodeCursor(iso, [(key, Str(s))]).Success?
    ensures DecodeCursor(iso, EncodeCursor(iso, [(key, Str(s))]).value) == Some([(key, Time(ToUtc(dt)))])
  {
    var obj: Object := [(key, JStr(s))];
    var d := [(key, Str(s))];
    assert ToJsonObject(iso, d) == Success(obj) by {
      assert d[1..] == [];
      var none: Object := [];
      assert [(key, JStr(s))] + none == obj;
    }
    var text := Dumps(obj);
    var raw := Utf8.Encode(text);
    var cursor := Base64Url.Encode(raw);
    assert EncodeCursor(iso, d) == Success(cursor);
    assert DecodeCursor(iso, cursor) == Some(ParseValues(iso, obj)) by {
      LoadsDumps(obj);
      Utf8.DecodeEncode(text);
      Base64Url.DecodeEncode(raw);
      DecodeSteps(iso, cursor, raw, text, obj);
    }
    assert ParseValues(iso, obj) == [(key, Time(ToUtc(dt)))] by {
      assert obj[1..] == [];
    }
  }

  /**
    Encoding fails with the `TypeError` of the first value `json.dumps` cannot
    write, whatever follows it.
   */
  lemma {:induction false} EncodeRejectsUnserializable(iso: IsoCodec, d: Dict<Value>, i: nat)
    requires i < |d| && d[i].1.Unserializable?
    requires forall j :: 0 <= j < i ==> !d[j].1.Unserializable?
    ensures EncodeCursor(iso, d) == Failure(NotSerializableMessage(d[i].1.typeName))
  {
    assert ToJsonObject(iso, d) == Failure(NotSerializableMessage(d[i].1.typeName)) by {
      ToJsonObjectFailure(iso, d, i);
    }
  }

  lemma {:induction false} ToJsonObjectFailure(iso: IsoCodec, d: Dict<Value>, i: nat)
    requires i < |d| && d[i].1.Unserializable?
    requires forall j :: 0 <= j < i ==> !d[j].1.Unserializable?
    ensures ToJsonObject(iso, d) == Failure(NotSerializableMessage(d[i].1.typeName))
  {
    if i > 0 {
      assert !d[0].1.Unserializable?;
      assert ToJson(iso, d[0].1).Success?;
      assert d[1..][i - 1] == d[i];
      ToJsonObjectFailure(iso, d[1..], i - 1);
    }
  }

  /**
    A cursor made of base64 data characters that do not fill whole groups of
    four is invalid (`'invalid-cursor-string'` has 21 of them).
   */
  lemma PartialGroupInvalid(iso: IsoCodec, cursor: string)
    requires Base64Url.AllData(cursor) && |cursor| % 4 != 0
    ensures DecodeCursor(iso, cursor) == None
  {
    Base64Url.PartialGroupUndecodable(cursor);
  }
}
