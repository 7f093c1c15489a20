/**
  `paginate_next_async` (golf_api/utils/firestore_pagination.py): one page of
  a forward-only cursor pagination over a Firestore query. The arguments are
  checked, the query is ordered and, given a cursor, started after the values
  it holds; `page_size + 1` documents are fetched; the page keeps the first
  `page_size` and, when the extra one shows there is more, carries a cursor
  built from the order-by fields of its last item.

  Firestore is not modelled: a query is a value recording what the helper
  asked for, and `fetch` stands for running it and streaming the documents.
 */
module Pagination {
  import opened Wrappers
  import opened Dicts
  import opened Cursor
  import Json

  /** `MAX_GET_LIMIT` (golf_api/constants.py). */
  const MaxGetLimit: int := 100

  /** The pseudo-field of a document's own path. */
  const NameField: string := "__name__"

  /** `firestore.Query.ASCENDING`. */
  const AscendingName: string := "ASCENDING"

  datatype Direction = Ascending | Descending

  /** A value to start after: a field value, or the document reference `db.document(path)`. */
  datatype StartValue = FieldValue(v: Value) | DocumentRef(path: Value)

  /**
    A query as the helper shapes it: the ordering clauses in the order they
    were added, the values to start after, and the limit.
   */
  datatype Query = Query(orders: seq<(string, Direction)>, startAfter: Option<seq<StartValue>>, limit: Option<int>)

  /** A streamed snapshot: the path of its reference and `to_dict()`, `None` for a missing document. */
  datatype Document = Document(path: string, data: Option<Dict<Value>>)

  /** `Page(items=..., next_cursor=...)`, with each item the field dict it was validated from. */
  datatype Page = Page(items: seq<Dict<Value>>, nextCursor: Option<string>)

  /** The exceptions `paginate_next_async` raises. */
  datatype PageError =
    | PageSizeOutOfRange
    | EmptyOrderBy
    | InvalidCursor
    | CursorMissingField(field: string)
    | LastDocumentMissingField(field: string)
    | NotSerializable(message: string)

  /** The text of each exception: `ValueError`s, and the `TypeError` of `_json_default`. */
  function Message(e: PageError): string
  {
    match e
    case PageSizeOutOfRange => "page_size must be between 1 and " + Json.NatToString(MaxGetLimit)
    case EmptyOrderBy => "order_by must have at least one field"
    case InvalidCursor => "Invalid cursor"
    case CursorMissingField(f) => "Cursor missing field '" + f + "'"
    case LastDocumentMissingField(f) => "Last document missing required order field '" + f + "'"
    case NotSerializable(m) => m
  }

  // ---------------------------------------------------------------- specification

  /** `'asc'` or `ASCENDING` orders ascending; any other direction descending. */
  function DirectionOf(direction: string): Direction
  {
    if direction == "asc" || direction == AscendingName then Ascending else Descending
  }

  /** The ordering clauses added for `order_by`, in order. */
  function OrderClauses(orderBy: seq<(string, string)>): seq<(string, Direction)>
  {
    if orderBy == [] then []
    else
      var last := orderBy[|orderBy| - 1];
      OrderClauses(orderBy[..|orderBy| - 1]) + [(last.0, DirectionOf(last.1))]
  }

  /** The value a cursor field contributes to `start_after`. */
  function StartValueOf(field: string, v: Value): StartValue
  {
    if field == NameField then DocumentRef(v) else FieldValue(v)
  }

  /** The `start_after` values for `order_by`, read from a decoded cursor; the first field it lacks fails. */
  function StartValues(lastValues: Dict<Value>, orderBy: seq<(string, string)>): Result<seq<StartValue>, PageError>
  {
    if orderBy == [] then Success([])
    else
      match StartValues(lastValues, orderBy[..|orderBy| - 1])
      case Failure(e) => Failure(e)
      case Success(vs) =>
        var field := orderBy[|orderBy| - 1].0;
        match Get(lastValues, field)
        case None => Failure(CursorMissingField(field))
        case Some(v) => Success(vs + [StartValueOf(field, v)])
  }

  /** Where the page starts: `None` without a cursor (an empty one included). */
  function CursorStart(iso: IsoCodec, cursor: Option<string>, orderBy: seq<(string, string)>): Result<Option<seq<StartValue>>, PageError>
  {
    if cursor.None? || cursor.value == [] then Success(None)
    else
      match DecodeCursor(iso, cursor.value)
      case None => Failure(InvalidCursor)
      case Some(lastValues) =>
        match StartValues(lastValues, orderBy)
        case Failure(e) => Failure(e)
        case Success(vs) => Success(Some(vs))
  }

  /** The query that is streamed: ordered, started after the cursor values if any, limited to one more than a page. */
  function PageQuery(query: Query, orderBy: seq<(string, string)>, start: Option<seq<StartValue>>, pageSize: int): Query
  {
    Query(query.orders + OrderClauses(orderBy), if start.Some? then start else query.startAfter, Some(pageSize + 1))
  }

  /** `doc.to_dict() or {}`. */
  function DataOf(doc: Document): Dict<Value>
  {
    if doc.data.Some? then doc.data.value else []
  }

  function Items(docs: seq<Document>): (items: seq<Dict<Value>>)
    ensures |items| == |docs|
    ensures forall i :: 0 <= i < |docs| ==> items[i] == DataOf(docs[i])
  {
    seq(|docs|, i requires 0 <= i < |docs| => DataOf(docs[i]))
  }

  /**
    The cursor payload for the last item: each order-by field's value in the
    item's data, `__name__` its path; the first other field it lacks fails.
   */
  function CursorPayload(path: string, data: Dict<Value>, orderBy: seq<(string, string)>): Result<Dict<Value>, PageError>
  {
    if orderBy == [] then Success([])
    else
      match CursorPayload(path, data, orderBy[..|orderBy| - 1])
      case Failure(e) => Failure(e)
      case Success(payload) =>
        var field := orderBy[|orderBy| - 1].0;
        if field == NameField then Success(Put(payload, NameField, Str(path)))
        else
          match Get(data, field)
          case None => Failure(LastDocumentMissingField(field))
          case Some(v) => Success(Put(payload, field, v))
  }

  /** The page after the documents are fetched: trimmed, and with a cursor when there are more. */
  function CutPage(iso: IsoCodec, docs: seq<Document>, orderBy: seq<(string, string)>, pageSize: int): Result<Page, PageError>
    requires 1 <= pageSize
  {
    if |docs| <= pageSize then Success(Page(Items(docs), None))
    else
      var last := docs[pageSize - 1];
      match CursorPayload(last.path, DataOf(last), orderBy)
      case Failure(e) => Failure(e)
      case Success(payload) =>
        match EncodeCursor(iso, payload)
        case Failure(m) => Failure(NotSerializable(m))
        case Success(c) => Success(Page(Items(docs[..pageSize]), Some(c)))
  }

  /** The whole call, as a function of its arguments and of what the query streams. */
  function Paginate(iso: IsoCodec, fetch: Query -> seq<Document>, query: Query,
                    orderBy: seq<(string, string)>, pageSize: int, cursor: Option<string>): Result<Page, PageError>
  {
    if pageSize < 1 || pageSize > MaxGetLimit then Failure(PageSizeOutOfRange)
    else if orderBy == [] then Failure(EmptyOrderBy)
    else
      match CursorStart(iso, cursor, orderBy)
      case Failure(e) => Failure(e)
      case Success(start) => CutPage(iso, fetch(PageQuery(query, orderBy, start, pageSize)), orderBy, pageSize)
  }

  // ---------------------------------------------------------------- the helper, step by step

  /** The `for field, direction in order_by` loop: one `order_by` clause per field, in order. */
  method ApplyOrdering(query: Query, orderBy: seq<(string, string)>) returns (q: Query)
    ensures q == query.(orders := query.orders + OrderClauses(orderBy))
  {
    q := query;
    for i := 0 to |orderBy|
      invariant q == query.(orders := query.orders + OrderClauses(orderBy[..i]))
    {
      var (field, direction) := orderBy[i];
      assert orderBy[..i + 1][..i] == orderBy[..i];
      q := q.(orders := q.orders + [(field, DirectionOf(direction))]);
    }
    assert orderBy[..|orderBy|] == orderBy;
  }

  /** The loop that reads each order-by field back out of a decoded cursor. */
  method CursorValues(lastValues: Dict<Value>, orderBy: seq<(string, string)>) returns (r: Result<seq<StartValue>, PageError>)
    ensures r == StartValues(lastValues, orderBy)
  {
    var values: seq<StartValue> := [];
    for i := 0 to |orderBy|
      invariant StartValues(lastValues, orderBy[..i]) == Success(values)
    {
      var field := orderBy[i].0;
      assert orderBy[..i + 1][..i] == orderBy[..i];
      var value := Get(lastValues, field);
      if value.None? {
        StartValuesPrefixFailure(lastValues, orderBy, i + 1);
        return Failure(CursorMissingField(field));
      }
      values := values + [StartValueOf(field, value.value)];
    }
    assert orderBy[..|orderBy|] == orderBy;
    return Success(values);
  }

  /** The `async for doc in ...stream()` loop: every document's data, paired with its document. */
  method CollectDocuments(docs: seq<Document>) returns (items: seq<Dict<Value>>, docsData: seq<(Document, Dict<Value>)>)
    ensures items == Items(docs)
    ensures |docsData| == |docs|
    ensures forall i :: 0 <= i < |docs| ==> docsData[i] == (docs[i], DataOf(docs[i]))
  {
    items, docsData := [], [];
    for i := 0 to |docs|
      invariant |items| == i && |docsData| == i
      invariant forall j :: 0 <= j < i ==> items[j] == DataOf(docs[j]) && docsData[j] == (docs[j], DataOf(docs[j]))
    {
      var data := DataOf(docs[i]);
      items := items + [data];
      docsData := docsData + [(docs[i], data)];
    }
  }

  /** The loop that fills the cursor payload from the last item returned. */
  method BuildPayload(path: string, data: Dict<Value>, orderBy: seq<(string, string)>) returns (r: Result<Dict<Value>, PageError>)
    ensures r == CursorPayload(path, data, orderBy)
  {
    var payload: Dict<Value> := [];
    for i := 0 to |orderBy|
      invariant CursorPayload(path, data, orderBy[..i]) == Success(payload)
    {
      var field := orderBy[i].0;
      assert orderBy[..i + 1][..i] == orderBy[..i];
      if field == NameField {
        payload := Put(payload, NameField, Str(path));
      } else {
        var value := Get(data, field);
        if value.None? {
          CursorPayloadPrefixFailure(path, data, orderBy, i + 1);
          return Failure(LastDocumentMissingField(field));
        }
        payload := Put(payload, field, value.value);
      }
    }
    assert orderBy[..|orderBy|] == orderBy;
    return Success(payload);
  }

  /** `if cursor:` and what follows: decode it, then read the `start_after` values from it. */
  method StartAfter(iso: IsoCodec, cursor: Option<string>, orderBy: seq<(string, string)>)
    returns (r: Result<Option<seq<StartValue>>, PageError>)
    ensures r == CursorStart(iso, cursor, orderBy)
  {
    if cursor.None? || cursor.value == [] {
      return Success(None);
    }
    var lastValues := DecodeCursor(iso, cursor.value);
    if lastValues.None? {
      return Failure(InvalidCursor);
    }
    var values := CursorValues(lastValues.value, orderBy);
    if values.Failure? {
      return Failure(values.error);
    }
    return Success(Some(values.value));
  }

  /** What follows the fetch: collect the documents, trim the extra one, and build the next cursor from the last item kept. */
  method TrimPage(iso: IsoCodec, docs: seq<Document>, orderBy: seq<(string, string)>, pageSize: int)
    returns (r: Result<Page, PageError>)
    requires 1 <= pageSize
    ensures r == CutPage(iso, docs, orderBy, pageSize)
  {
    var items, docsData := CollectDocuments(docs);
    var nextCursor: Option<string> := None;
    if |items| > pageSize {
      items := items[..pageSize];
      assert items == Items(docs[..pageSize]);
      var (lastDoc, lastData) := docsData[pageSize - 1];
      var payload := BuildPayload(lastDoc.path, lastData, orderBy);
      if payload.Failure? {
        return Failure(payload.error);
      }
      var encoded := EncodeCursor(iso, payload.value);
      if encoded.Failure? {
        return Failure(NotSerializable(encoded.error));
      }
      nextCursor := Some(encoded.value);
    }
    return Success(Page(items, nextCursor));
  }

  /**
    `paginate_next_async`: the argument checks come first, before anything is
    fetched; a page never holds more than `page_size` items; and the whole
    outcome is `Paginate`, whose properties the lemmas below establish.
   */
  method PaginateNext(iso: IsoCodec, fetch: Query -> seq<Document>, query: Query,
                      orderBy: seq<(string, string)>, pageSize: int, cursor: Option<string>)
    returns (r: Result<Page, PageError>)
    ensures pageSize < 1 || pageSize > MaxGetLimit ==> r == Failure(PageSizeOutOfRange)
    ensures 1 <= pageSize <= MaxGetLimit && orderBy == [] ==> r == Failure(EmptyOrderBy)
    ensures r.Success? ==> |r.value.items| <= pageSize
    ensures r == Paginate(iso, fetch, query, orderBy, pageSize, cursor)
  {
    if pageSize < 1 || pageSize > MaxGetLimit {
      return Failure(PageSizeOutOfRange);
    }
    if orderBy == [] {
      return Failure(EmptyOrderBy);
    }
    var q := ApplyOrdering(query, orderBy);
    var start := StartAfter(iso, cursor, orderBy);
    if start.Failure? {
      return Failure(start.error);
    }
    if start.value.Some? {
      q := q.(startAfter := start.value);
    }
    var docs := fetch(q.(limit := Some(pageSize + 1)));
    assert docs == fetch(PageQuery(query, orderBy, start.value, pageSize));
    r := TrimPage(iso, docs, orderBy, pageSize);
  }

  // ---------------------------------------------------------------- properties

  /** A field missing from the cursor stops the reading there: later fields do not matter. */
  lemma {:induction false} StartValuesPrefixFailure(lastValues: Dict<Value>, orderBy: seq<(string, string)>, k: nat)
    requires k <= |orderBy| && StartValues(lastValues, orderBy[..k]).Failure?
    ensures StartValues(lastValues, orderBy) == StartValues(lastValues, orderBy[..k])
    decreases |orderBy|
  {
    if k < |orderBy| {
      var front := orderBy[..|orderBy| - 1];
      assert front[..k] == orderBy[..k];
      StartValuesPrefixFailure(lastValues, front, k);
    } else {
      assert orderBy[..k] == orderBy;
    }
  }

  /** A field missing from the last item stops the payload there: later fields do not matter. */
  lemma {:induction false} CursorPayloadPrefixFailure(path: string, data: Dict<Value>, orderBy: seq<(string, string)>, k: nat)
    requires k <= |orderBy| && CursorPayload(path, data, orderBy[..k]).Failure?
    ensures CursorPayload(path, data, orderBy) == CursorPayload(path, data, orderBy[..k])
    decreases |orderBy|
  {
    if k < |orderBy| {
      var front := orderBy[..|orderBy| - 1];
      assert front[..k] == orderBy[..k];
      CursorPayloadPrefixFailure(path, data, front, k);
    } else {
      assert orderBy[..k] == orderBy;
    }
  }

  /** Each `order_by` entry becomes one clause on its field: ascending exactly for `'asc'` and `ASCENDING`. */
  lemma {:induction false} OrderClausesDirections(orderBy: seq<(string, string)>)
    ensures |OrderClauses(orderBy)| == |orderBy|
    ensures forall i :: 0 <= i < |orderBy| ==>
      OrderClauses(orderBy)[i].0 == orderBy[i].0 &&
      (OrderClauses(orderBy)[i].1 == Ascending <==> orderBy[i].1 == "asc" || orderBy[i].1 == AscendingName)
    decreases |orderBy|
  {
    if orderBy != [] {
      OrderClausesDirections(orderBy[..|orderBy| - 1]);
    }
  }

  /** Every order-by field is a key of the decoded cursor. */
  predicate AllPresent(lastValues: Dict<Value>, orderBy: seq<(string, string)>)
  {
    forall i :: 0 <= i < |orderBy| ==> orderBy[i].0 in Keys(lastValues)
  }

  lemma AllPresentStep(lastValues: Dict<Value>, orderBy: seq<(string, string)>)
    requires orderBy != []
    ensures AllPresent(lastValues, orderBy) <==>
      AllPresent(lastValues, orderBy[..|orderBy| - 1]) && orderBy[|orderBy| - 1].0 in Keys(lastValues)
  {
    var front := orderBy[..|orderBy| - 1];
    assert forall i :: 0 <= i < |front| ==> front[i] == orderBy[i];
  }

  /** One step of `StartValues`: the last field succeeds when present, and its value is appended. */
  lemma StartValuesStep(lastValues: Dict<Value>, orderBy: seq<(string, string)>)
    requires orderBy != []
    ensures var front := orderBy[..|orderBy| - 1];
      var field := orderBy[|orderBy| - 1].0;
      (StartValues(lastValues, orderBy).Success? <==> StartValues(lastValues, front).Success? && field in Keys(lastValues)) &&
      (StartValues(lastValues, orderBy).Success? ==>
        StartValues(lastValues, orderBy).value == StartValues(lastValues, front).value + [StartValueOf(field, Get(lastValues, field).value)])
  {
  }

  /** Reading a decoded cursor succeeds exactly when it holds every order-by field. */
  lemma {:induction false} StartValuesSucceed(lastValues: Dict<Value>, orderBy: seq<(string, string)>)
    ensures StartValues(lastValues, orderBy).Success? <==> AllPresent(lastValues, orderBy)
    decreases |orderBy|
  {
    if orderBy != [] {
      var front := orderBy[..|orderBy| - 1];
      assert StartValues(lastValues, front).Success? <==> AllPresent(lastValues, front) by {
        StartValuesSucceed(lastValues, front);
      }
      AllPresentStep(lastValues, orderBy);
      StartValuesStep(lastValues, orderBy);
    }
  }

  /**
    What a successful read yields: one value per order-by field, in
    `order_by` order, with `__name__` turned into a document reference.
   */
  lemma {:induction false} StartValueAt(lastValues: Dict<Value>, orderBy: seq<(string, string)>, i: nat)
    requires StartValues(lastValues, orderBy).Success? && i < |orderBy|
    ensures |StartValues(lastValues, orderBy).value| == |orderBy|
    ensures orderBy[i].0 in Keys(lastValues)
    ensures StartValues(lastValues, orderBy).value[i] == StartValueOf(orderBy[i].0, Get(lastValues, orderBy[i].0).value)
    decreases |orderBy|
  {
    var front := orderBy[..|orderBy| - 1];
    var field := orderBy[|orderBy| - 1].0;
    var vs := StartValues(lastValues, orderBy).value;
    assert StartValues(lastValues, front).Success? && field in Keys(lastValues) by {
      StartValuesStep(lastValues, orderBy);
    }
    var vs0 := StartValues(lastValues, front).value;
    var x := StartValueOf(field, Get(lastValues, field).value);
    assert vs == vs0 + [x] by {
      StartValuesStep(lastValues, orderBy);
    }
    assert |vs| == |orderBy| by {
      if front != [] {
        StartValueAt(lastValues, front, 0);
      }
    }
    if i < |front| {
      assert front[i] == orderBy[i];
      assert vs0[i] == StartValueOf(orderBy[i].0, Get(lastValues, orderBy[i].0).value) by {
        StartValueAt(lastValues, front, i);
      }
      assert vs[i] == vs0[i];
    } else {
      assert i == |orderBy| - 1;
      assert orderBy[i] == orderBy[|orderBy| - 1];
      assert vs[i] == x;
    }
  }

  /** The first order-by field a decoded cursor lacks is the one the error names. */
  lemma StartValuesFirstMissing(lastValues: Dict<Value>, orderBy: seq<(string, string)>, j: nat)
    requires j < |orderBy| && orderBy[j].0 !in Keys(lastValues)
    requires forall i :: 0 <= i < j ==> orderBy[i].0 in Keys(lastValues)
    ensures StartValues(lastValues, orderBy) == Failure(CursorMissingField(orderBy[j].0))
  {
    var front := orderBy[..j];
    assert StartValues(lastValues, front).Success? by {
      StartValuesSucceed(lastValues, front);
      assert forall i :: 0 <= i < |front| ==> front[i] == orderBy[i];
    }
    assert orderBy[..j + 1][..j] == front;
    StartValuesPrefixFailure(lastValues, orderBy, j + 1);
  }

  /** A field the payload can take from a document: `__name__`, or a key of its data. */
  predicate Recorded(data: Dict<Value>, field: string)
  {
    field == NameField || field in Keys(data)
  }

  /** The payload's value for a field: the document's path for `__name__`, its data's value otherwise. */
  function LastValue(path: string, data: Dict<Value>, field: string): Value
    requires Recorded(data, field)
  {
    if field == NameField then Str(path) else Get(data, field).value
  }

  /** One step of `CursorPayload`: the last field succeeds when it is recorded, and is assigned into the payload so far. */
  lemma PayloadStep(path: string, data: Dict<Value>, orderBy: seq<(string, string)>)
    requires orderBy != []
    ensures var front := orderBy[..|orderBy| - 1];
      var field := orderBy[|orderBy| - 1].0;
      (CursorPayload(path, data, orderBy).Success? <==> CursorPayload(path, data, front).Success? && Recorded(data, field)) &&
      (CursorPayload(path, data, orderBy).Success? ==>
        CursorPayload(path, data, orderBy).value == Put(CursorPayload(path, data, front).value, field, LastValue(path, data, field)))
  {
  }

  /** Every order-by field is recorded for the item. */
  predicate AllRecorded(data: Dict<Value>, orderBy: seq<(string, string)>)
  {
    forall i :: 0 <= i < |orderBy| ==> Recorded(data, orderBy[i].0)
  }

  lemma AllRecordedStep(data: Dict<Value>, orderBy: seq<(string, string)>)
    requires orderBy != []
    ensures AllRecorded(data, orderBy) <==>
      AllRecorded(data, orderBy[..|orderBy| - 1]) && Recorded(data, orderBy[|orderBy| - 1].0)
  {
    var front := orderBy[..|orderBy| - 1];
    assert forall i :: 0 <= i < |front| ==> front[i] == orderBy[i];
  }

  /** The payload is built exactly when every order-by field is recorded for the last item. */
  lemma {:induction false} CursorPayloadSucceeds(path: string, data: Dict<Value>, orderBy: seq<(string, string)>)
    ensures CursorPayload(path, data, orderBy).Success? <==> AllRecorded(data, orderBy)
    decreases |orderBy|
  {
    if orderBy != [] {
      var front := orderBy[..|orderBy| - 1];
      assert CursorPayload(path, data, front).Success? <==> AllRecorded(data, front) by {
        CursorPayloadSucceeds(path, data, front);
      }
      AllRecordedStep(data, orderBy);
      PayloadStep(path, data, orderBy);
    }
  }

  /** A built payload never repeats a key. */
  lemma {:induction false} CursorPayloadDistinct(path: string, data: Dict<Value>, orderBy: seq<(string, string)>)
    requires CursorPayload(path, data, orderBy).Success?
    ensures DistinctKeys(CursorPayload(path, data, orderBy).value)
    decreases |orderBy|
  {
    if orderBy != [] {
      var front := orderBy[..|orderBy| - 1];
      var field := orderBy[|orderBy| - 1].0;
      PayloadStep(path, data, orderBy);
      CursorPayloadDistinct(path, data, front);
      PutDistinct(CursorPayload(path, data, front).value, field, LastValue(path, data, field));
    }
  }

  /** The keys of a built payload are exactly the order-by field names. */
  lemma {:induction false} CursorPayloadKeys(path: string, data: Dict<Value>, orderBy: seq<(string, string)>)
    requires CursorPayload(path, data, orderBy).Success?
    ensures forall k :: k in Keys(CursorPayload(path, data, orderBy).value) <==> k in Keys(orderBy)
    decreases |orderBy|
  {
    if orderBy != [] {
      var front := orderBy[..|orderBy| - 1];
      var last := orderBy[|orderBy| - 1];
      var p := CursorPayload(path, data, orderBy).value;
      assert CursorPayload(path, data, front).Success? && Recorded(data, last.0) by {
        PayloadStep(path, data, orderBy);
      }
      var p0 := CursorPayload(path, data, front).value;
      var v := LastValue(path, data, last.0);
      assert p == Put(p0, last.0, v) by {
        PayloadStep(path, data, orderBy);
      }
      assert forall k :: k in Keys(p0) <==> k in Keys(front) by {
        CursorPayloadKeys(path, data, front);
      }
      assert forall k :: k in Keys(p) <==> k in Keys(p0) || k == last.0 by {
        PutKeys(p0, last.0, v);
      }
      assert forall k :: k in Keys(orderBy) <==> k in Keys(front) || k == last.0 by {
        KeysDropLast(orderBy);
      }
      KeysGrow(Keys(p), Keys(p0), Keys(orderBy), Keys(front), last.0);
    }
  }

  /** Set reasoning for one step: what both sides gain is the same key. */
  lemma KeysGrow(p: seq<string>, p0: seq<string>, o: seq<string>, o0: seq<string>, key: string)
    requires forall k :: k in p <==> k in p0 || k == key
    requires forall k :: k in p0 <==> k in o0
    requires forall k :: k in o <==> k in o0 || k == key
    ensures forall k :: k in p <==> k in o
  {
  }

  /** Each order-by field of a built payload holds the last item's value: its path for `__name__`. */
  lemma {:induction false} CursorPayloadValue(path: string, data: Dict<Value>, orderBy: seq<(string, string)>, i: nat)
    requires CursorPayload(path, data, orderBy).Success? && i < |orderBy|
    ensures Recorded(data, orderBy[i].0)
    ensures Get(CursorPayload(path, data, orderBy).value, orderBy[i].0) == Some(LastValue(path, data, orderBy[i].0))
    decreases |orderBy|
  {
    var front := orderBy[..|orderBy| - 1];
    var field := orderBy[|orderBy| - 1].0;
    var p := CursorPayload(path, data, orderBy).value;
    assert CursorPayload(path, data, front).Success? && Recorded(data, field) by {
      PayloadStep(path, data, orderBy);
    }
    var p0 := CursorPayload(path, data, front).value;
    var v := LastValue(path, data, field);
    assert p == Put(p0, field, v) by {
      PayloadStep(path, data, orderBy);
    }
    var f := orderBy[i].0;
    assert Get(p, field) == Some(v) && (f != field ==> Get(p, f) == Get(p0, f)) by {
      PutGet(p0, field, v, f);
    }
    if i < |front| {
      assert front[i] == orderBy[i];
      assert Recorded(data, f) && Get(p0, f) == Some(LastValue(path, data, f)) by {
        CursorPayloadValue(path, data, front, i);
      }
    } else {
      assert i == |orderBy| - 1;
      assert orderBy[i] == orderBy[|orderBy| - 1];
      assert f == field;
    }
  }

  /** The first order-by field missing from the last item is the one the error names. */
  lemma CursorPayloadFirstMissing(path: string, data: Dict<Value>, orderBy: seq<(string, string)>, j: nat)
    requires j < |orderBy| && !Recorded(data, orderBy[j].0)
    requires forall i :: 0 <= i < j ==> Recorded(data, orderBy[i].0)
    ensures CursorPayload(path, data, orderBy) == Failure(LastDocumentMissingField(orderBy[j].0))
  {
    var front := orderBy[..j];
    assert CursorPayload(path, data, front).Success? by {
      CursorPayloadSucceeds(path, data, front);
      assert forall i :: 0 <= i < |front| ==> front[i] == orderBy[i];
    }
    assert orderBy[..j + 1][..j] == front;
    CursorPayloadPrefixFailure(path, data, orderBy, j + 1);
  }

  /** The value the next call starts after for an order-by field: the last item's value as the cursor brings it back. */
  function ResumeValue(path: string, data: Dict<Value>, field: string): StartValue
    requires Recorded(data, field)
  {
    StartValueOf(field, Normalise(LastValue(path, data, field)))
  }

  /** An empty string never decodes as a cursor: it holds no JSON object. */
  lemma EmptyCursorUndecodable(iso: IsoCodec)
    ensures DecodeCursor(iso, []) == None
  {
    var none: string := [];
    assert Base64Url.Decode(none) == Some([]);
    assert Utf8.Decode([]) == Some(none);
  }

  /** Every entry of a built payload holds one of the values it was built from. */
  lemma PayloadEntriesCarried(iso: IsoCodec, path: string, data: Dict<Value>, orderBy: seq<(string, string)>)
    requires AllRecorded(data, orderBy)
    requires forall i :: 0 <= i < |orderBy| ==> Carried(iso, LastValue(path, data, orderBy[i].0))
    ensures CursorPayload(path, data, orderBy).Success?
    ensures var p := CursorPayload(path, data, orderBy).value;
      DistinctKeys(p) && forall j :: 0 <= j < |p| ==> Carried(iso, p[j].1)
  {
    CursorPayloadSucceeds(path, data, orderBy);
    var p := CursorPayload(path, data, orderBy).value;
    CursorPayloadDistinct(path, data, orderBy);
    CursorPayloadKeys(path, data, orderBy);
    forall j | 0 <= j < |p|
      ensures Carried(iso, p[j].1)
    {
      assert p[j].0 in Keys(p) by {
        assert Keys(p)[j] == p[j].0;
      }
      var i :| 0 <= i < |orderBy| && Keys(orderBy)[i] == p[j].0;
      CursorPayloadValue(path, data, orderBy, i);
      GetEntry(p, j);
    }
  }

  /**
    The emitted cursor carries the order-by values of the last item: it
    decodes to a dict holding, under each order-by field, that item's value
    (its path for `__name__`) as the round trip brings it back.
   */
  lemma PayloadRoundTrip(iso: IsoCodec, path: string, data: Dict<Value>, orderBy: seq<(string, string)>)
    requires ValidIso(iso) && AllRecorded(data, orderBy)
    requires forall i :: 0 <= i < |orderBy| ==> Carried(iso, LastValue(path, data, orderBy[i].0))
    ensures CursorPayload(path, data, orderBy).Success?
    ensures EncodeCursor(iso, CursorPayload(path, data, orderBy).value).Success?
    ensures var c := EncodeCursor(iso, CursorPayload(path, data, orderBy).value).value;
      c != [] && DecodeCursor(iso, c).Some? &&
      (forall k :: k in Keys(DecodeCursor(iso, c).value) <==> k in Keys(orderBy)) &&
      forall i :: 0 <= i < |orderBy| ==>
        Get(DecodeCursor(iso, c).value, orderBy[i].0) == Some(Normalise(LastValue(path, data, orderBy[i].0)))
  {
    PayloadEntriesCarried(iso, path, data, orderBy);
    var p := CursorPayload(path, data, orderBy).value;
    DecodeEncode(iso, p);
    var c := EncodeCursor(iso, p).value;
    EmptyCursorUndecodable(iso);
    CursorPayloadKeys(path, data, orderBy);
    assert Keys(NormaliseAll(p)) == Keys(p);
    forall i | 0 <= i < |orderBy|
      ensures Get(NormaliseAll(p), orderBy[i].0) == Some(Normalise(LastValue(path, data, orderBy[i].0)))
    {
      CursorPayloadValue(path, data, orderBy, i);
      GetNormalised(p, orderBy[i].0);
    }
  }

  /**
    Cutting a page out of the streamed documents keeps the first
    `min(page_size, n)` of them in stream order, and yields a next cursor
    exactly when more than `page_size` were streamed; only then can it fail.
   */
  lemma CutPageContents(iso: IsoCodec, docs: seq<Document>, orderBy: seq<(string, string)>, pageSize: int)
    requires 1 <= pageSize
    ensures var r := CutPage(iso, docs, orderBy, pageSize);
      r.Success? ==>
        |r.value.items| == (if |docs| < pageSize then |docs| else pageSize) &&
        (forall i :: 0 <= i < |r.value.items| ==> r.value.items[i] == DataOf(docs[i])) &&
        (r.value.nextCursor.None? <==> |docs| <= pageSize)
    ensures |docs| <= pageSize ==> CutPage(iso, docs, orderBy, pageSize).Success?
  {
    var r := CutPage(iso, docs, orderBy, pageSize);
    if r.Success? && |docs| > pageSize {
      assert r.value.items == Items(docs[..pageSize]);
    }
  }

  /** The page `Paginate` returns once the arguments pass and the cursor is read is the one cut from the stream. */
  lemma PaginateCuts(iso: IsoCodec, fetch: Query -> seq<Document>, query: Query, orderBy: seq<(string, string)>,
                     pageSize: int, cursor: Option<string>, start: Option<seq<StartValue>>)
    requires 1 <= pageSize <= MaxGetLimit && orderBy != []
    requires CursorStart(iso, cursor, orderBy) == Success(start)
    ensures Paginate(iso, fetch, query, orderBy, pageSize, cursor) ==
      CutPage(iso, fetch(PageQuery(query, orderBy, start, pageSize)), orderBy, pageSize)
  {
  }

  /**
    Once the arguments pass and the cursor is read, the query streamed asks
    for one more than a page; the page holds the first `min(page_size, n)`
    streamed documents in stream order, and carries a next cursor exactly
    when more than `page_size` were streamed. An empty stream gives an empty
    page without a cursor.
   */
  lemma PageContents(iso: IsoCodec, fetch: Query -> seq<Document>, query: Query, orderBy: seq<(string, string)>,
                     pageSize: int, cursor: Option<string>, start: Option<seq<StartValue>>, docs: seq<Document>)
    requires 1 <= pageSize <= MaxGetLimit && orderBy != []
    requires CursorStart(iso, cursor, orderBy) == Success(start)
    requires docs == fetch(PageQuery(query, orderBy, start, pageSize))
    ensures PageQuery(query, orderBy, start, pageSize).limit == Some(pageSize + 1)
    ensures var r := Paginate(iso, fetch, query, orderBy, pageSize, cursor);
      r.Success? ==>
        |r.value.items| == (if |docs| < pageSize then |docs| else pageSize) &&
        (forall i :: 0 <= i < |r.value.items| ==> r.value.items[i] == DataOf(docs[i])) &&
        (r.value.nextCursor.None? <==> |docs| <= pageSize)
    ensures |docs| <= pageSize ==> Paginate(iso, fetch, query, orderBy, pageSize, cursor).Success?
    ensures docs == [] ==> Paginate(iso, fetch, query, orderBy, pageSize, cursor) == Success(Page([], None))
  {
    PaginateCuts(iso, fetch, query, orderBy, pageSize, cursor, start);
    CutPageContents(iso, docs, orderBy, pageSize);
  }

  /** Reading back a cursor that holds each field's resumed value yields exactly the resumed start values. */
  lemma ResumeAll(decoded: Dict<Value>, path: string, data: Dict<Value>, orderBy: seq<(string, string)>)
    requires StartValues(decoded, orderBy).Success? && orderBy != [] && AllRecorded(data, orderBy)
    requires forall i :: 0 <= i < |orderBy| ==> Get(decoded, orderBy[i].0) == Some(Normalise(LastValue(path, data, orderBy[i].0)))
    ensures |StartValues(decoded, orderBy).value| == |orderBy|
    ensures forall i :: 0 <= i < |orderBy| ==> StartValues(decoded, orderBy).value[i] == ResumeValue(path, data, orderBy[i].0)
  {
    forall i | 0 <= i < |orderBy|
      ensures StartValues(decoded, orderBy).value[i] == ResumeValue(path, data, orderBy[i].0)
    {
      StartValueAt(decoded, orderBy, i);
    }
    StartValueAt(decoded, orderBy, 0);
  }

  /**
    Handing `cursor` to the next call makes it start after the item with
    this path and data: the cursor reads back to one start value per
    order-by field, each the item's own value for that field.
   */
  ghost predicate Resumes(iso: IsoCodec, cursor: string, path: string, data: Dict<Value>, orderBy: seq<(string, string)>)
  {
    var next := CursorStart(iso, Some(cursor), orderBy);
    AllRecorded(data, orderBy) && next.Success? && next.value.Some? && |next.value.value| == |orderBy| &&
    forall i :: 0 <= i < |orderBy| ==> next.value.value[i] == ResumeValue(path, data, orderBy[i].0)
  }

  /** The cursor built for an item that records every order-by field with a value the cursor carries resumes after it. */
  lemma CursorResumes(iso: IsoCodec, path: string, data: Dict<Value>, orderBy: seq<(string, string)>)
    requires ValidIso(iso) && orderBy != [] && AllRecorded(data, orderBy)
    requires forall i :: 0 <= i < |orderBy| ==> Carried(iso, LastValue(path, data, orderBy[i].0))
    ensures CursorPayload(path, data, orderBy).Success?
    ensures EncodeCursor(iso, CursorPayload(path, data, orderBy).value).Success?
    ensures Resumes(iso, EncodeCursor(iso, CursorPayload(path, data, orderBy).value).value, path, data, orderBy)
  {
    PayloadRoundTrip(iso, path, data, orderBy);
    var c := EncodeCursor(iso, CursorPayload(path, data, orderBy).value).value;
    var decoded := DecodeCursor(iso, c).value;
    assert StartValues(decoded, orderBy).Success? by {
      assert AllPresent(decoded, orderBy);
      StartValuesSucceed(decoded, orderBy);
    }
    assert CursorStart(iso, Some(c), orderBy) == Success(Some(StartValues(decoded, orderBy).value));
    ResumeAll(decoded, path, data, orderBy);
  }

  /** When more documents were streamed than a page holds, the cut page's cursor resumes after its last item. */
  lemma CutPageResumes(iso: IsoCodec, docs: seq<Document>, orderBy: seq<(string, string)>, pageSize: int)
    requires ValidIso(iso) && orderBy != []
    requires 1 <= pageSize < |docs|
    requires AllRecorded(DataOf(docs[pageSize - 1]), orderBy)
    requires forall i :: 0 <= i < |orderBy| ==>
      Carried(iso, LastValue(docs[pageSize - 1].path, DataOf(docs[pageSize - 1]), orderBy[i].0))
    ensures var r := CutPage(iso, docs, orderBy, pageSize);
      r.Success? && r.value.nextCursor.Some? &&
      Resumes(iso, r.value.nextCursor.value, docs[pageSize - 1].path, DataOf(docs[pageSize - 1]), orderBy)
  {
    var last := docs[pageSize - 1];
    CursorResumes(iso, last.path, DataOf(last), orderBy);
  }

  /**
    Following the next cursor resumes after the last item returned: when
    that item records every order-by field with a value the cursor carries,
    the page has a next cursor, and the next call given it starts after
    that item's own order-by values.
   */
  lemma NextPageResumes(iso: IsoCodec, fetch: Query -> seq<Document>, query: Query, orderBy: seq<(string, string)>,
                        pageSize: int, cursor: Option<string>, start: Option<seq<StartValue>>, docs: seq<Document>)
    requires ValidIso(iso)
    requires 1 <= pageSize <= MaxGetLimit && orderBy != []
    requires CursorStart(iso, cursor, orderBy) == Success(start)
    requires docs == fetch(PageQuery(query, orderBy, start, pageSize)) && |docs| > pageSize
    requires AllRecorded(DataOf(docs[pageSize - 1]), orderBy)
    requires forall i :: 0 <= i < |orderBy| ==>
      Carried(iso, LastValue(docs[pageSize - 1].path, DataOf(docs[pageSize - 1]), orderBy[i].0))
    ensures var r := Paginate(iso, fetch, query, orderBy, pageSize, cursor);
      r.Success? && r.value.nextCursor.Some? &&
      Resumes(iso, r.value.nextCursor.value, docs[pageSize - 1].path, DataOf(docs[pageSize - 1]), orderBy)
  {
    PaginateCuts(iso, fetch, query, orderBy, pageSize, cursor, start);
    CutPageResumes(iso, docs, orderBy, pageSize);
  }

  /**
    A cursor made only of base64 data characters whose length is not a
    multiple of four (such as `invalid-cursor-string`) is refused with
    "Invalid cursor", once the other arguments pass.
   */
  lemma TruncatedCursorRejected(iso: IsoCodec, fetch: Query -> seq<Document>, query: Query, orderBy: seq<(string, string)>,
                                pageSize: int, cursor: string)
    requires 1 <= pageSize <= MaxGetLimit && orderBy != []
    requires Base64Url.AllData(cursor) && |cursor| % 4 != 0
    ensures Paginate(iso, fetch, query, orderBy, pageSize, Some(cursor)) == Failure(InvalidCursor)
  {
    PartialGroupInvalid(iso, cursor);
  }

  /**
    A last item whose order-by values cannot all be serialised fails the call
    with the `TypeError` of the first such value in the payload.
   */
  lemma UnserializablePayloadRejected(iso: IsoCodec, fetch: Query -> seq<Document>, query: Query, orderBy: seq<(string, string)>,
                                      pageSize: int, cursor: Option<string>, start: Option<seq<StartValue>>,
                                      docs: seq<Document>, p: Dict<Value>, i: nat)
    requires 1 <= pageSize <= MaxGetLimit && orderBy != []
    requires CursorStart(iso, cursor, orderBy) == Success(start)
    requires docs == fetch(PageQuery(query, orderBy, start, pageSize)) && |docs| > pageSize
    requires CursorPayload(docs[pageSize - 1].path, DataOf(docs[pageSize - 1]), orderBy) == Success(p)
    requires i < |p| && p[i].1.Unserializable?
    requires forall j :: 0 <= j < i ==> !p[j].1.Unserializable?
    ensures Paginate(iso, fetch, query, orderBy, pageSize, cursor) == Failure(NotSerializable(NotSerializableMessage(p[i].1.typeName)))
  {
    PaginateCuts(iso, fetch, query, orderBy, pageSize, cursor, start);
    EncodeRejectsUnserializable(iso, p, i);
  }

  /** A cursor that cannot be read stops the call with its error, before anything is fetched. */
  lemma PaginateStops(iso: IsoCodec, fetch: Query -> seq<Document>, query: Query, orderBy: seq<(string, string)>,
                      pageSize: int, cursor: Option<string>, e: PageError)
    requires 1 <= pageSize <= MaxGetLimit && orderBy != []
    requires CursorStart(iso, cursor, orderBy) == Failure(e)
    ensures Paginate(iso, fetch, query, orderBy, pageSize, cursor) == Failure(e)
  {
  }

  /** A decoded cursor lacking an order-by field is refused, naming the first such field. */
  lemma CursorMissingFieldRejected(iso: IsoCodec, fetch: Query -> seq<Document>, query: Query, orderBy: seq<(string, string)>,
                                   pageSize: int, cursor: string, lastValues: Dict<Value>, j: nat)
    requires 1 <= pageSize <= MaxGetLimit
    requires cursor != [] && DecodeCursor(iso, cursor) == Some(lastValues)
    requires j < |orderBy| && orderBy[j].0 !in Keys(lastValues)
    requires forall i :: 0 <= i < j ==> orderBy[i].0 in Keys(lastValues)
    ensures Paginate(iso, fetch, query, orderBy, pageSize, Some(cursor)) == Failure(CursorMissingField(orderBy[j].0))
  {
    assert StartValues(lastValues, orderBy) == Failure(CursorMissingField(orderBy[j].0)) by {
      StartValuesFirstMissing(lastValues, orderBy, j);
    }
    assert CursorStart(iso, Some(cursor), orderBy) == Failure(CursorMissingField(orderBy[j].0));
    PaginateStops(iso, fetch, query, orderBy, pageSize, Some(cursor), CursorMissingField(orderBy[j].0));
  }

  /**
    When there are more documents, a last item lacking an order-by field
    (other than `__name__`) is refused, naming the first such field.
   */
  lemma LastDocumentMissingFieldRejected(iso: IsoCodec, fetch: Query -> seq<Document>, query: Query, orderBy: seq<(string, string)>,
                                         pageSize: int, cursor: Option<string>, start: Option<seq<StartValue>>, docs: seq<Document>, j: nat)
    requires 1 <= pageSize <= MaxGetLimit
    requires CursorStart(iso, cursor, orderBy) == Success(start)
    requires docs == fetch(PageQuery(query, orderBy, start, pageSize)) && |docs| > pageSize
    requires j < |orderBy| && !Recorded(DataOf(docs[pageSize - 1]), orderBy[j].0)
    requires forall i :: 0 <= i < j ==> Recorded(DataOf(docs[pageSize - 1]), orderBy[i].0)
    ensures Paginate(iso, fetch, query, orderBy, pageSize, cursor) == Failure(LastDocumentMissingField(orderBy[j].0))
  {
    CursorPayloadFirstMissing(docs[pageSize - 1].path, DataOf(docs[pageSize - 1]), orderBy, j);
  }
}
