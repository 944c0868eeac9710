/** Whole messages as bytes: building and serializing requests, reading
    messages back, and finding the response item that answers a request item. */
module Messages {
  import opened Prelude
  import opened Buffers
  import opened Ttlv
  import opened TtlvCodec
  import opened Elements
  import opened Protocol

  // --------------------------------------------------- depth of message trees

  predicate PayloadNested(payload: Option<Element>, levels: int) {
    payload.Some? ==> NestedWithin(payload.value, levels)
  }

  lemma RequestHeaderNested(h: RequestHeader, levels: int)
    requires levels >= 4
    ensures NestedWithin(RequestHeaderElement(h), levels)
  {
    var fs := RequestHeaderFields(h);
    assert NestedWithin(VersionElement(h.version), levels - 1);
    if AuthenticationField(h.userName, h.password).Some? {
      var value := Element(TAG_CREDENTIAL_VALUE, Structure(Fields(CredentialFields(h.userName, h.password))));
      assert NestedWithin(value, levels - 3);
      assert NestedWithin(AuthenticationField(h.userName, h.password).value, levels - 1);
    }
    forall c | c in Fields(fs) ensures NestedWithin(c, levels - 1) {
      assert Some(c) in fs;
    }
  }

  lemma RequestItemNested(item: RequestBatchItem, levels: int)
    requires levels >= 1
    ensures NestedWithin(RequestItemElement(item), levels) <==> PayloadNested(item.payload, levels - 1)
  {
  }

  lemma ResponseItemNested(item: ResponseBatchItem, levels: int)
    requires levels >= 1
    ensures NestedWithin(ResponseItemElement(item), levels) <==> PayloadNested(item.payload, levels - 1)
  {
  }

  lemma MessageNested(tag: Tag, h: Element, es: seq<Element>, levels: int)
    requires levels >= 0 && NestedWithin(h, levels - 1)
    ensures NestedWithin(Element(tag, Structure([h] + es)), levels) <==>
            forall i :: 0 <= i < |es| ==> NestedWithin(es[i], levels - 1)
  {
    var e := Element(tag, Structure([h] + es));
    var all := e.value.items;
    forall i | 0 <= i < |es| ensures es[i] in all {
      assert all[i + 1] == es[i];
    }
    assert forall c :: c in all ==> c == h || c in es;
  }

  /** A request stays within the parser's depth limit exactly when its payloads
      leave room for the two levels of message and batch item above them. */
  lemma RequestNested(r: Request)
    ensures NestedWithin(RequestElement(r), MAX_STRUCTURE_DEPTH)
            <==> forall i :: 0 <= i < |r.items| ==> PayloadNested(r.items[i].payload, MAX_STRUCTURE_DEPTH - 2)
  {
    RequestHeaderNested(r.header, MAX_STRUCTURE_DEPTH - 1);
    var es := RequestItemElements(r.items);
    forall i | 0 <= i < |es|
      ensures NestedWithin(es[i], MAX_STRUCTURE_DEPTH - 1) <==>
                PayloadNested(r.items[i].payload, MAX_STRUCTURE_DEPTH - 2)
    {
      RequestItemNested(r.items[i], MAX_STRUCTURE_DEPTH - 1);
    }
    MessageNested(TAG_REQUEST_MESSAGE, RequestHeaderElement(r.header), es, MAX_STRUCTURE_DEPTH);
  }

  lemma ResponseNested(r: Response)
    ensures NestedWithin(ResponseElement(r), MAX_STRUCTURE_DEPTH)
            <==> forall i :: 0 <= i < |r.items| ==> PayloadNested(r.items[i].payload, MAX_STRUCTURE_DEPTH - 2)
  {
    assert NestedWithin(VersionElement(r.header.version), MAX_STRUCTURE_DEPTH - 2);
    assert NestedWithin(ResponseHeaderElement(r.header), MAX_STRUCTURE_DEPTH - 1);
    var es := ResponseItemElements(r.items);
    forall i | 0 <= i < |es|
      ensures NestedWithin(es[i], MAX_STRUCTURE_DEPTH - 1) <==>
                PayloadNested(r.items[i].payload, MAX_STRUCTURE_DEPTH - 2)
    {
      ResponseItemNested(r.items[i], MAX_STRUCTURE_DEPTH - 1);
    }
    MessageNested(TAG_RESPONSE_MESSAGE, ResponseHeaderElement(r.header), es, MAX_STRUCTURE_DEPTH);
  }

  // ----------------------------------------------------------------- requests

  /** Items as they leave in a request: tagged and not too deep payloads. */
  predicate Sendable(items: seq<RequestBatchItem>) {
    forall i :: 0 <= i < |items| ==>
      && Tagged(items[i].payload, TAG_REQUEST_PAYLOAD)
      && PayloadNested(items[i].payload, MAX_STRUCTURE_DEPTH - 2)
  }

  class RequestMessage {
    var header: RequestHeader
    var items: seq<RequestBatchItem>
    var nextBatchItemId: uint32

    /** Items are numbered 1, 2, 3, ... in order of arrival (modulo 2^32). */
    ghost predicate Valid()
      reads this
    {
      && nextBatchItemId == (|items| + 1) % 0x1_0000_0000
      && forall i :: 0 <= i < |items| ==> items[i].id == (i + 1) % 0x1_0000_0000
    }

    constructor (version: ProtocolVersion)
      ensures Valid() && items == []
      ensures header == RequestHeader(version, 0, Some(1048576), None, None, None, None)
    {
      header := RequestHeader(version, 0, Some(DEFAULT_MAX_RESPONSE_SIZE), None, None, None, None);
      items, nextBatchItemId := [], 1;
    }

    method AddBatchItem(item: RequestBatchItem) returns (id: uint32)
      requires Valid()
      modifies this`items, this`nextBatchItemId
      ensures Valid() && items == old(items) + [item.(id := id)]
      ensures |old(items)| < 0xFFFF_FFFF ==> id == |items|
    {
      id := nextBatchItemId;
      nextBatchItemId := (nextBatchItemId + 1) % 0x1_0000_0000;
      items := items + [item.(id := id)];
    }

    method SetMaxResponseSize(size: nat) returns (r: Result<()>)
      modifies this`header
      ensures r.Ok? <==> size < 0x8000_0000
      ensures header == if r.Ok? then old(header).(maxResponseSize := Some(size)) else old(header)
    {
      if size > 0x7FFF_FFFF {
        return Err(GENERAL_FAILURE);
      }
      header := header.(maxResponseSize := Some(size));
      return Ok(());
    }

    /** The response size to accept; a negative one is cast to a large size_t. */
    function MaxResponseSize(): nat
      reads this
    {
      match header.maxResponseSize
      case Some(n) => if n < 0 then 0x1_0000_0000_0000_0000 + n else n
      case None => DEFAULT_MAX_RESPONSE_SIZE
    }

    /** What goes out: the batch count is that of the items, the time stamp is
        now, and a batch of several asks for order unless told otherwise. */
    ghost function Sent(now: int64): Request
      reads this
    {
      Request(header.(batchCount := Cast32(|items|),
                      timeStamp := Some(now),
                      batchOrder := if |items| > 1 && header.batchOrder.None? then Some(true) else header.batchOrder),
              items)
    }

    /** Serializes a completed copy. Whatever it returns decodes, as bytes, to
        exactly the header and items that were sent. */
    method Serialize(now: int64) returns (r: Result<seq<byte>>)
      ensures r.Ok? <==> && items != []
                         && VersionValid(RequestElement(Sent(now)), header.version)
                         && |Encode(RequestElement(Sent(now)))| <= DEFAULT_LIMIT
      ensures r.Ok? ==> r.value == Encode(RequestElement(Sent(now)))
      ensures r.Ok? && Sendable(items) ==>
                var e := Decode(r.value, 0);
                && e.Some? && Encode(e.value) == r.value && RequestFrom(e.value) == Ok(Sent(now))
                && Completed(header, items, now, RequestFrom(e.value).value)
    {
      if items == [] {
        return Err(GENERAL_FAILURE);
      }
      var h := header.(batchCount := Cast32(|items|));
      if |items| > 1 && h.batchOrder.None? {
        h := h.(batchOrder := Some(true));
      }
      h := h.(timeStamp := Some(now));
      ghost var sent := Sent(now);
      assert sent == Request(h, items);
      SentCompletes(header, items, now, sent);
      var e := BuildRequest(h, items);
      var valid := ValidateElementTypes(e, h.version);
      if valid.Err? {
        return Err(valid.code);
      }
      if Sendable(items) {
        SentIsReadBack(sent);
      }
      r := ToBytes(e);
    }
  }

  /** A server that reads the bytes finds the caller's items and header, the number of
      the items, the time, and of several items whose order the caller left open that
      they are to be taken in order. */
  ghost predicate Completed(h: RequestHeader, items: seq<RequestBatchItem>, now: int64, d: Request) {
    && d.items == items && d.header.version == h.version && d.header.timeStamp == Some(now)
    && d.header.maxResponseSize == h.maxResponseSize
    && d.header.userName == h.userName && d.header.password == h.password
    && (|items| < 0x8000_0000 ==> d.header.batchCount == |items|)
    && (h.batchOrder.Some? ==> d.header.batchOrder == h.batchOrder)
    && (h.batchOrder.None? && |items| > 1 ==> d.header.batchOrder == Some(true))
    && (h.batchOrder.None? && |items| == 1 ==> d.header.batchOrder == None)
  }

  lemma SentCompletes(h: RequestHeader, items: seq<RequestBatchItem>, now: int64, d: Request)
    requires d == Request(h.(batchCount := Cast32(|items|),
                             timeStamp := Some(now),
                             batchOrder := if |items| > 1 && h.batchOrder.None? then Some(true) else h.batchOrder),
                          items)
    ensures Completed(h, items, now, d)
  {
  }

  /** RequestMessage::toElement, short of its version check. */
  method BuildRequest(h: RequestHeader, items: seq<RequestBatchItem>) returns (e: Element)
    ensures e == RequestElement(Request(h, items))
  {
    var children := [RequestHeaderElement(h)];
    for i := 0 to |items|
      invariant children == [RequestHeaderElement(h)] + RequestItemElements(items[..i])
    {
      children := children + [RequestItemElement(items[i])];
      assert RequestItemElements(items[..i + 1]) == RequestItemElements(items[..i]) + [RequestItemElement(items[i])];
    }
    assert items[..|items|] == items;
    e := Element(TAG_REQUEST_MESSAGE, Structure(children));
  }

  lemma SentIsReadBack(r: Request)
    requires Sendable(r.items) && r.header.batchCount == Cast32(|r.items|)
    requires VersionValid(RequestElement(r), r.header.version)
    ensures RequestFrom(RequestElement(r)) == Ok(r) && NestedWithin(RequestElement(r), MAX_STRUCTURE_DEPTH)
  {
    RequestNested(r);
    RequestRoundTrip(r);
  }

  // --------------------------------------------------------- reading messages

  /** The loop over a message's children, stopping at the first bad item. */
  method ReadResponseItems(children: seq<Element>) returns (r: Result<seq<ResponseBatchItem>>)
    ensures r == ItemsFrom(children, ResponseItemFrom)
  {
    var items: seq<ResponseBatchItem> := [];
    for i := 0 to |children|
      invariant ItemsFrom(children[..i], ResponseItemFrom) == Ok(items)
    {
      assert children[..i + 1][..i] == children[..i];
      if children[i].tag == TAG_BATCH_ITEM {
        var item := ResponseItemFrom(children[i]);
        if item.Err? {
          FailurePersists(children, i + 1, ResponseItemFrom);
          return Err(item.code);
        }
        items := items + [item.value];
      }
    }
    assert children[..|children|] == children;
    return Ok(items);
  }

  lemma {:induction false} FailurePersists<T>(children: seq<Element>, i: nat, parse: Element -> Result<T>)
    requires i <= |children| && ItemsFrom(children[..i], parse).Err?
    ensures ItemsFrom(children, parse) == ItemsFrom(children[..i], parse)
    decreases |children|
  {
    if i == |children| {
      assert children[..i] == children;
    } else {
      var n := |children| - 1;
      assert children[..n][..i] == children[..i];
      FailurePersists(children[..n], i, parse);
    }
  }

  method ReadResponse(e: Element) returns (r: Result<Response>)
    ensures r == ResponseFrom(e)
  {
    if !IsStructure(e, TAG_RESPONSE_MESSAGE) {
      return Err(GENERAL_FAILURE);
    }
    var hdr := GetChild(e, TAG_RESPONSE_HEADER);
    if hdr.None? {
      return Err(GENERAL_FAILURE);
    }
    var header := ResponseHeaderFrom(hdr.value);
    if header.Err? {
      return Err(header.code);
    }
    var valid := ValidateElementTypes(e, header.value.version);
    if valid.Err? {
      return Err(valid.code);
    }
    var items := ReadResponseItems(e.value.items);
    if items.Err? {
      return Err(items.code);
    }
    if Cast32(|items.value|) > header.value.batchCount {
      return Err(GENERAL_FAILURE);
    }
    return Ok(Response(header.value, items.value));
  }

  // ---------------------------------------------------------- response parser

  /** The message a whole byte string stands for: one element, nothing after it. */
  ghost function ResponseOf(bytes: seq<byte>): Result<Response> {
    var e := Decode(bytes, 0);
    if e.None? || |Encode(e.value)| != |bytes| then Err(GENERAL_FAILURE) else ResponseFrom(e.value)
  }

  /** A response that can be printed and read back. */
  ghost predicate Printable(r: Response) {
    && |Encode(ResponseElement(r))| <= DEFAULT_LIMIT
    && VersionValid(ResponseElement(r), r.header.version) && Cast32(|r.items|) <= r.header.batchCount
    && forall i :: 0 <= i < |r.items| ==>
         Readable(r.items[i]) && PayloadNested(r.items[i].payload, MAX_STRUCTURE_DEPTH - 2)
  }

  /** A response the server prints is read back as it was meant. */
  lemma ResponseBytesRoundTrip(r: Response)
    requires Printable(r)
    ensures ResponseOf(Encode(ResponseElement(r))) == Ok(r)
  {
    ResponseNested(r);
    ResponseRoundTrip(r);
    ReadBack(ResponseElement(r), r);
  }

  lemma ReadBack(e: Element, r: Response)
    requires |Encode(e)| <= DEFAULT_LIMIT && NestedWithin(e, MAX_STRUCTURE_DEPTH) && ResponseFrom(e) == Ok(r)
    ensures ResponseOf(Encode(e)) == Ok(r)
  {
    var s := EncodePieces(e);
    RoundTrip(e, [], []);
    assert [] + Encode(e) + [] == Encode(e);
  }

  /** Index of the first item with the id, or the number of items. */
  function IndexOfId(items: seq<ResponseBatchItem>, id: uint32): (i: nat)
    ensures i <= |items| && (i < |items| ==> items[i].id == id)
    ensures forall j :: 0 <= j < i ==> items[j].id != id
  {
    if items == [] then 0 else if items[0].id == id then 0 else 1 + IndexOfId(items[1..], id)
  }

  /** First the item that echoes the id, else the one at its request position. */
  function Lookup(items: seq<ResponseBatchItem>, positions: map<uint32, nat>,
                  id: uint32): (r: Result<ResponseBatchItem>) {
    var i := IndexOfId(items, id);
    if i < |items| then Ok(items[i])
    else if id in positions && positions[id] < |items| then Ok(items[positions[id]])
    else Err(GENERAL_FAILURE)
  }

  const STATUS_SUCCESS: int32 := 0

  /** An item that did not succeed is raised with the server's reason. */
  function EnsureSuccess(item: ResponseBatchItem): Result<()> {
    if item.status == STATUS_SUCCESS then Ok(())
    else Err(if item.reason.Some? then item.reason.value else GENERAL_FAILURE)
  }

  /** The payload of a response to one operation. */
  function TypedPayload(item: ResponseBatchItem, operation: int32): Result<Element> {
    if item.operation != operation || item.payload.None? then Err(GENERAL_FAILURE) else Ok(item.payload.value)
  }

  class ResponseParser {
    const responseBytes: seq<byte>
    var parsed: Option<Response>
    const operationHints: map<uint32, int32>
    const batchItemPositions: map<uint32, nat>
    ghost const request: seq<RequestBatchItem>

    ghost predicate Valid()
      reads this
    {
      && (parsed.Some? ==> ResponseOf(responseBytes) == Ok(parsed.value))
      && batchItemPositions.Keys == operationHints.Keys
      && (forall i :: 0 <= i < |request| ==> request[i].id in batchItemPositions)
      && forall id :: id in batchItemPositions ==>
           && batchItemPositions[id] < |request| && request[batchItemPositions[id]].id == id
           && operationHints[id] == request[batchItemPositions[id]].operation
           && forall j :: batchItemPositions[id] < j < |request| ==> request[j].id != id
    }

    constructor (bytes: seq<byte>, requestItems: seq<RequestBatchItem>)
      ensures Valid() && parsed == None && responseBytes == bytes && request == requestItems
    {
      var hints: map<uint32, int32>, positions: map<uint32, nat> := map[], map[];
      for pos := 0 to |requestItems|
        invariant positions.Keys == hints.Keys
        invariant forall i :: 0 <= i < pos ==> requestItems[i].id in positions
        invariant forall id :: id in positions ==>
                    && positions[id] < pos && requestItems[positions[id]].id == id
                    && hints[id] == requestItems[positions[id]].operation
                    && forall j :: positions[id] < j < pos ==> requestItems[j].id != id
      {
        var item := requestItems[pos];
        hints := hints[item.id := item.operation];
        positions := positions[item.id := pos];
      }
      responseBytes, operationHints, batchItemPositions, request := bytes, hints, positions, requestItems;
      parsed := None;
    }

    /** Parses at most once; a failure leaves the parser unparsed. */
    method EnsureParsed() returns (r: Result<()>)
      requires Valid()
      modifies this`parsed
      ensures Valid()
      ensures r.Ok? <==> ResponseOf(responseBytes).Ok?
      ensures r.Ok? <==> parsed.Some?
    {
      if parsed.Some? {
        return Ok(());
      }
      if responseBytes == [] {
        return Err(GENERAL_FAILURE);
      }
      var root, offset := Deserialize(responseBytes, 0);
      if root.Err? {
        return Err(root.code);
      }
      if offset != |responseBytes| {
        return Err(GENERAL_FAILURE);
      }
      var response := ReadResponse(root.value);
      if response.Err? {
        return Err(response.code);
      }
      parsed := Some(response.value);
      return Ok(());
    }

    method GetItemByBatchItemId(id: uint32) returns (r: Result<ResponseBatchItem>)
      requires Valid()
      modifies this`parsed
      ensures Valid()
      ensures ResponseOf(responseBytes).Err? ==> r.Err?
      ensures ResponseOf(responseBytes).Ok? ==>
                r == Lookup(ResponseOf(responseBytes).value.items, batchItemPositions, id)
    {
      var ready := EnsureParsed();
      if ready.Err? {
        return Err(ready.code);
      }
      var items := parsed.value.items;
      for i := 0 to |items|
        invariant forall j :: 0 <= j < i ==> items[j].id != id
      {
        if items[i].id == id {
          return Ok(items[i]);
        }
      }
      if |batchItemPositions| > 0 {
        if id in batchItemPositions {
          var pos := batchItemPositions[id];
          if pos < |items| {
            return Ok(items[pos]);
          }
        }
      }
      return Err(GENERAL_FAILURE);
    }

    /** The operation an item answers, guessed from the request if it is omitted. */
    function EffectiveOperation(item: ResponseBatchItem, requested: Option<uint32>): int32 {
      if item.operation != 0 then item.operation
      else if item.id in operationHints then operationHints[item.id]
      else if requested.Some? && requested.value in operationHints then operationHints[requested.value]
      else 0
    }
  }

  /** A request numbered the way RequestMessage numbers it, short of wrapping. */
  ghost predicate Numbered(request: seq<RequestBatchItem>) {
    |request| < 0xFFFF_FFFF && forall i :: 0 <= i < |request| ==> request[i].id == i + 1
  }

  /** If the server does not echo the id, the item at the same position answers, or
      none does when the response is too short for it. */
  lemma PositionalCorrelation(p: ResponseParser, items: seq<ResponseBatchItem>, k: nat)
    requires p.Valid() && Numbered(p.request) && k < |p.request|
    requires forall i :: 0 <= i < |items| ==> items[i].id != k + 1
    ensures Lookup(items, p.batchItemPositions, k + 1) == if k < |items| then Ok(items[k]) else Err(GENERAL_FAILURE)
  {
    assert p.request[k].id == k + 1;
    var pos := p.batchItemPositions[k + 1];
    assert p.request[pos].id == pos + 1;
  }

  predicate FirstEcho(items: seq<ResponseBatchItem>, j: int, id: int) {
    0 <= j < |items| && items[j].id == id && forall i :: 0 <= i < j ==> items[i].id != id
  }

  /** From the request to the item, through the bytes of the response: the item of
      request `k` is the first that echoes its id, in whatever order the server
      answers, or else the one at its position, or an error if there is none. */
  method Correlate(message: RequestMessage, response: Response, k: nat) returns (r: Result<ResponseBatchItem>)
    requires message.Valid() && k < |message.items| < 0xFFFF_FFFF && Printable(response)
    ensures message.items[k].id == k + 1
    ensures forall j :: FirstEcho(response.items, j, k + 1) ==> r == Ok(response.items[j])
    ensures (forall i :: 0 <= i < |response.items| ==> response.items[i].id != k + 1) ==>
              r == if k < |response.items| then Ok(response.items[k]) else Err(GENERAL_FAILURE)
  {
    ghost var parser;
    AreNumbered(message.items);
    r, parser := Ask(message.items, response, message.items[k].id);
    Correlated(parser, response.items, k);
  }

  lemma AreNumbered(items: seq<RequestBatchItem>)
    requires |items| < 0xFFFF_FFFF && forall i :: 0 <= i < |items| ==> items[i].id == (i + 1) % 0x1_0000_0000
    ensures Numbered(items)
  {
  }

  /** The answer to one id, from the printed response. */
  method Ask(request: seq<RequestBatchItem>, response: Response, id: uint32)
    returns (r: Result<ResponseBatchItem>, ghost parser: ResponseParser)
    requires Printable(response)
    ensures parser.Valid() && parser.request == request && r == Lookup(response.items, parser.batchItemPositions, id)
  {
    ResponseBytesRoundTrip(response);
    var bytes := ToBytes(ResponseElement(response));
    var p := new ResponseParser(bytes.value, request);
    r := p.GetItemByBatchItemId(id);
    parser := p;
  }

  lemma Correlated(p: ResponseParser, items: seq<ResponseBatchItem>, k: nat)
    requires p.Valid() && Numbered(p.request) && k < |p.request|
    ensures forall j :: FirstEcho(items, j, k + 1) ==> Lookup(items, p.batchItemPositions, k + 1) == Ok(items[j])
    ensures (forall i :: 0 <= i < |items| ==> items[i].id != k + 1) ==>
              Lookup(items, p.batchItemPositions, k + 1) == if k < |items| then Ok(items[k]) else Err(GENERAL_FAILURE)
  {
    if forall i :: 0 <= i < |items| ==> items[i].id != k + 1 {
      PositionalCorrelation(p, items, k);
    }
  }

  /** Either way, an item is reported under its own operation, or under the one that was
      asked for if it leaves its own out. */
  lemma OmittedOperation(p: ResponseParser, item: ResponseBatchItem, k: nat)
    requires p.Valid() && Numbered(p.request) && k < |p.request|
    requires item.id == k + 1 || item.id == 0
    ensures p.EffectiveOperation(item, Some(k + 1)) ==
            if item.operation == 0 then p.request[k].operation else item.operation
  {
  }
}
