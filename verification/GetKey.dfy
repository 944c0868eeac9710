/** Fetching a key: Get with Get Attributes in one batch, retried for servers
    that reject the attribute selectors, and the negotiation of the Key Format
    Type. A server is a function from the position of a request in the run and
    the request to a reply. */
module GetKey {
  import opened Prelude
  import opened Ttlv
  import opened Elements
  import opened Protocol
  import opened Keys
  import Framing
  import Messages

  const REASON_INVALID_MESSAGE := 0x4
  const REASON_INVALID_FIELD := 0x7
  const REASON_FEATURE_NOT_SUPPORTED := 0x8
  const OP_GET: int32 := 0x0A
  const OP_GET_ATTRIBUTES: int32 := 0x0B
  const OBJTYPE_SECRET_DATA: int32 := 7

  /** What an exchange fails with. */
  type TransportError = c: int | c == Framing.IO_FAILURE || c == EXCEED_MAX_MESSAGE_SIZE
    witness Framing.IO_FAILURE

  datatype Request = Batch(legacyNames: bool, selectors: bool) | Format(format: int32)

  /** An exchange fails in transport, brings bytes that are no response, or brings
      a response with these items. */
  datatype Reply = Lost(code: TransportError) | Malformed | Received(items: seq<ResponseBatchItem>)

  type Server = (nat, Request) -> Reply
  type Log = seq<Request>

  /** Whether the payload of a Get Attributes response holds the State. */
  type StateReader = Element -> Result<bool>

  /** What the key readers are given: the attribute parser of a key value, the
      reader of attributes, and the test for a SubjectPublicKeyInfo. */
  datatype Readers = Readers(attributes: AttributesParser, state: StateReader, isSpki: Bytes -> bool)

  /** Codes the client raises itself. General Failure is a reason a server may give
      too, but none of them is one to retry. */
  predicate ClientCode(code: int) {
    code < 0 || code == GENERAL_FAILURE
  }

  predicate ShouldRetry(code: int) {
    code == REASON_INVALID_MESSAGE || code == REASON_INVALID_FIELD || code == REASON_FEATURE_NOT_SUPPORTED
  }

  function PreferredFormats(objectType: int32): seq<int32> {
    if objectType == OBJTYPE_PRIVATE_KEY then [FORMAT_PKCS8]
    else if objectType == OBJTYPE_PUBLIC_KEY then [FORMAT_X509, FORMAT_PKCS8]
    else []
  }

  // --------------------------------------------------------- response items

  /** The item for a request item: Get is the first of its request, and Get
      Attributes the second. */
  function ItemOf(items: seq<ResponseBatchItem>, id: uint32): Result<ResponseBatchItem> {
    Messages.Lookup(items, map[1 := 0, 2 := 1], id)
  }

  /** A typed Get response: its payload, object type and object. */
  datatype GetItem = GetItem(payload: Element, objectType: int32, holder: Element)

  function ObjectElement(payload: Element, objectType: int32): Option<Element> {
    if objectType == OBJTYPE_SECRET_DATA then GetChild(payload, TAG_SECRET_DATA)
    else if KeyTypeOf(objectType).Ok? then GetChild(payload, ObjectTag(KeyTypeOf(objectType).value))
    else None
  }

  function GetItemFrom(payload: Element): Result<GetItem> {
    var id, t := GetChild(payload, TAG_UNIQUE_IDENTIFIER), GetChild(payload, TAG_OBJECT_TYPE);
    if id.None? || ToText(id.value).Err? || t.None? then Err(GENERAL_FAILURE)
    else
      var objectType :- ToEnum(t.value);
      var holder := ObjectElement(payload, objectType);
      if holder.None? then Err(GENERAL_FAILURE) else Ok(GetItem(payload, objectType, holder.value))
  }

  /** The Get item of a response, by its id, after the success check. */
  function GetResponse(items: seq<ResponseBatchItem>): Result<GetItem> {
    var item :- ItemOf(items, 1);
    var _ :- Messages.EnsureSuccess(item);
    var payload :- Messages.TypedPayload(item, OP_GET);
    GetItemFrom(payload)
  }

  function StateResponse(items: seq<ResponseBatchItem>, state: StateReader): Result<bool> {
    var item :- ItemOf(items, 2);
    var _ :- Messages.EnsureSuccess(item);
    var payload :- Messages.TypedPayload(item, OP_GET_ATTRIBUTES);
    state(payload)
  }

  /** What a batch comes to, before any negotiation: the Get item, if Get
      Attributes brought the State. */
  function BatchResult(reply: Reply, readers: Readers): Result<GetItem> {
    match reply
    case Lost(code) => Err(code)
    case Malformed => Err(GENERAL_FAILURE)
    case Received(items) =>
      var item :- GetResponse(items);
      var hasState :- StateResponse(items, readers.state);
      if hasState then Ok(item) else Err(GENERAL_FAILURE)
  }

  // --------------------------------------------------------------- one reply

  function KeyFormatType(item: GetItem): Result<Option<int32>> {
    var block := GetChild(item.holder, TAG_KEY_BLOCK);
    var format := if block.Some? then GetChild(block.value, TAG_KEY_FORMAT_TYPE) else None;
    if format.None? then Ok(None)
    else
      var f :- ToEnum(format.value);
      Ok(Some(f))
  }

  function ParseKey(item: GetItem, readers: Readers): Result<Key> {
    ParseResponse(Some(item.payload), readers.attributes)
  }

  /** A public key under the PKCS#8 label counts only if it holds a
      SubjectPublicKeyInfo, and is then recorded as X.509. */
  function InPreferredFormat(key: Key, isSpki: Bytes -> bool): Option<Key> {
    if key.keyType.PublicKey? && key.format == Some(FORMAT_PKCS8) then
      if isSpki(key.value) then Some(key.(format := Some(FORMAT_X509))) else None
    else Some(key)
  }

  /** The key of an item that is in one of the formats. */
  function KeyIn(item: GetItem, formats: seq<int32>, readers: Readers): Result<Option<Key>> {
    var format :- KeyFormatType(item);
    if format.None? || format.value !in formats then Ok(None)
    else
      var key :- ParseKey(item, readers);
      Ok(InPreferredFormat(key, readers.isSpki))
  }

  /** What a request for a format comes to. The status is looked at first, so that
      a refusal, whatever its reason, is no key and no error. */
  function FormatResult(reply: Reply, format: int32, readers: Readers): Result<Option<Key>> {
    match reply
    case Lost(code) => Err(code)
    case Malformed => Err(GENERAL_FAILURE)
    case Received(items) =>
      var item :- ItemOf(items, 1);
      if item.status != Messages.STATUS_SUCCESS then Ok(None)
      else
        var refetched :- GetResponse(items);
        KeyIn(refetched, [format], readers)
  }

  // ------------------------------------------------------------- error codes

  ghost predicate WellBehaved(readers: Readers) {
    forall items :: readers.attributes(items).Err? ==> ClientCode(readers.attributes(items).code)
  }

  lemma HolderCodes(holder: Element, keyType: KeyType, parse: AttributesParser)
    requires forall items :: parse(items).Err? ==> ClientCode(parse(items).code)
    ensures var r := ParseKeyHolder(holder, keyType, parse); r.Err? ==> ClientCode(r.code)
  {
  }

  lemma ParseCodes(item: GetItem, readers: Readers)
    requires WellBehaved(readers)
    ensures var r := ParseKey(item, readers); r.Err? ==> ClientCode(r.code)
  {
    var t := GetChild(item.payload, TAG_OBJECT_TYPE);
    if t.Some? && t.value.value.Enumeration? && KeyTypeOf(t.value.value.enum).Ok? {
      var keyType := KeyTypeOf(t.value.value.enum).value;
      var holder := GetChild(item.payload, ObjectTag(keyType));
      if holder.Some? {
        HolderCodes(holder.value, keyType, readers.attributes);
      }
    }
  }

  lemma KeyCodes(item: GetItem, formats: seq<int32>, readers: Readers)
    requires WellBehaved(readers)
    ensures var r := KeyIn(item, formats, readers); r.Err? ==> ClientCode(r.code)
  {
    ParseCodes(item, readers);
  }

  /** The item is there and failed for this reason. */
  predicate FailedFor(item: Result<ResponseBatchItem>, reason: int) {
    item.Ok? && item.value.status != Messages.STATUS_SUCCESS && item.value.reason == Some(reason)
  }

  /** A batch is rejected, to be tried again, exactly when the server failed the Get
      or, after a good Get, the Get Attributes for a reason to retry: the client
      raises none of these codes itself. */
  lemma RejectedExactly(items: seq<ResponseBatchItem>, code: int, readers: Readers)
    requires code == 4 || code == 7 || code == 8
    requires forall e :: readers.state(e).Err? ==> ClientCode(readers.state(e).code)
    ensures BatchResult(Received(items), readers) == Err(code) <==>
            || FailedFor(ItemOf(items, 1), code)
            || (GetResponse(items).Ok? && FailedFor(ItemOf(items, 2), code))
  {
    var get := GetResponse(items);
    assert get == Err(code) <==> FailedFor(ItemOf(items, 1), code);
    if get.Ok? {
      assert StateResponse(items, readers.state) == Err(code) <==> FailedFor(ItemOf(items, 2), code);
    }
  }

  /** A Get response is read exactly if its item, found by id or by position, succeeded
      (status 0) as a Get (operation 10) with a Unique Identifier, an Object Type and
      the object of that type: a symmetric, public or private key, or secret data. */
  lemma GetExactly(items: seq<ResponseBatchItem>, item: GetItem)
    ensures GetResponse(items) == Ok(item) <==>
            && ItemOf(items, 1).Ok? && ItemOf(items, 1).value.status == 0 && ItemOf(items, 1).value.operation == 10
            && ItemOf(items, 1).value.payload == Some(item.payload)
            && GetChild(item.payload, 0x420094).Some? && GetChild(item.payload, 0x420094).value.value.TextString?
            && GetChild(item.payload, 0x420057).Some?
            && GetChild(item.payload, 0x420057).value.value == Enumeration(item.objectType)
            && item.objectType in {2, 3, 4, 7}
            && GetChild(item.payload, if item.objectType == 2 then 0x42008F else if item.objectType == 3 then 0x42006D
                                      else if item.objectType == 4 then 0x420064 else 0x420085) == Some(item.holder)
  {
  }

  /** A batch succeeds exactly if its Get does, and its Get Attributes (operation 11)
      succeeds with a State. */
  lemma BatchExactly(reply: Reply, item: GetItem, readers: Readers)
    ensures BatchResult(reply, readers) == Ok(item) <==>
            && reply.Received? && GetResponse(reply.items) == Ok(item)
            && var second := ItemOf(reply.items, 2);
               && second.Ok? && second.value.status == 0 && second.value.operation == 11 && second.value.payload.Some?
               && readers.state(second.value.payload.value) == Ok(true)
  {
  }

  /** No reply to a format request raises a reason of the server: the status
      test keeps it from the success check. */
  lemma NoReasonEscapes(reply: Reply, format: int32, readers: Readers)
    requires WellBehaved(readers)
    ensures var r := FormatResult(reply, format, readers); r.Err? ==> ClientCode(r.code) && !ShouldRetry(r.code)
  {
    if reply.Received? && GetResponse(reply.items).Ok? {
      KeyCodes(GetResponse(reply.items).value, [format], readers);
    }
  }

  // ------------------------------------------------------ what is promised

  /** The Get item that the reply to request `k` brings. */
  function GetAt(server: Server, log: Log, k: nat): Result<GetItem>
    requires k < |log|
  {
    var reply := server(k, log[k]);
    if reply.Received? then GetResponse(reply.items) else Err(GENERAL_FAILURE)
  }

  function BatchAt(server: Server, log: Log, k: nat, readers: Readers): Result<GetItem>
    requires k < |log|
  {
    BatchResult(server(k, log[k]), readers)
  }

  /** The key that the reply to a format request brings in that format: for a public
      key under PKCS#8 (format 4), only a SubjectPublicKeyInfo, which is X.509 (5). */
  function Converted(server: Server, log: Log, k: nat, readers: Readers): Option<Key>
    requires k < |log| && log[k].Format?
  {
    var item := GetAt(server, log, k);
    if item.Err? || ParseKey(item.value, readers).Err? then None
    else
      var key := ParseKey(item.value, readers).value;
      if key.format != Some(log[k].format) then None
      else if !key.keyType.PublicKey? || log[k].format != 4 then Some(key)
      else if readers.isSpki(key.value) then Some(key.(format := Some(5)))
      else None
  }

  /** Why a format request breaks the negotiation off: the exchange or its parsing
      failed. A refusal, whatever its reason, does not. */
  function Broken(server: Server, log: Log, k: nat, readers: Readers): Option<int>
    requires k < |log| && log[k].Format?
  {
    match server(k, log[k])
    case Lost(code) => Some(code)
    case Malformed => Some(0x100)
    case Received(items) =>
      var found := ItemOf(items, 1);
      if found.Err? then Some(0x100)
      else if found.value.status != 0 then None
      else
        var item := GetResponse(items);
        if item.Err? then Some(item.code) else Unreadable(item.value, [log[k].format], readers)
  }

  /** Why a key that claims to be in one of the formats cannot be read. */
  function Unreadable(item: GetItem, formats: seq<int32>, readers: Readers): Option<int> {
    var claimed, key := KeyFormatType(item), ParseKey(item, readers);
    if claimed.Err? then Some(claimed.code)
    else if claimed.value.Some? && claimed.value.value in formats && key.Err? then Some(key.code)
    else None
  }

  /** The key of the plain Get, if it is in a preferred format already: PKCS#8 (4) for
      a private key (object type 4), X.509 (5) for a public one (3), or a
      SubjectPublicKeyInfo under PKCS#8. */
  function AtHand(item: GetItem, readers: Readers): Option<Key> {
    var parsed := ParseKey(item, readers);
    if parsed.Err? then None
    else
      var key := parsed.value;
      if item.objectType == 4 then if key.format == Some(4) then Some(key) else None
      else if key.format == Some(5) then Some(key)
      else if key.format == Some(4) && readers.isSpki(key.value) then Some(key.(format := Some(5)))
      else None
  }

  function WhyNotAtHand(item: GetItem, readers: Readers): Option<int> {
    Unreadable(item, if item.objectType == 4 then [4] else [5, 4], readers)
  }

  /** What a plain Get comes to. Of a private key PKCS#8 is asked for, of a public one
      X.509 and then PKCS#8, unless the key at hand is in such a format; the first
      reply in the format asked for is taken, the first broken one fails, and when
      all have been asked for in vain the key at hand is returned as it is. The
      format requests are those from `first` on. */
  ghost predicate Negotiated(server: Server, log: Log, first: nat, item: GetItem, r: Result<Key>, readers: Readers) {
    && first <= |log|
    && if item.objectType != 3 && item.objectType != 4 then |log| == first && r == ParseKey(item, readers)
       else if AtHand(item, readers).Some? then |log| == first && r == Ok(AtHand(item, readers).value)
       else if WhyNotAtHand(item, readers).Some? then |log| == first && r == Err(WhyNotAtHand(item, readers).value)
       else Refetched(server, log, first, item, r, readers)
  }

  /** The formats asked for: of a public key X.509 and then PKCS#8, of a private one
      PKCS#8 alone. */
  ghost predicate FormatRequests(objectType: int32, log: Log, first: nat) {
    && first < |log| <= first + (if objectType == 4 then 1 else 2)
    && forall k :: first <= k < |log| ==> log[k] == Format(if objectType == 3 && k == first then 5 else 4)
  }

  ghost predicate Refetched(server: Server, log: Log, first: nat, item: GetItem, r: Result<Key>, readers: Readers) {
    && FormatRequests(item.objectType, log, first) && InVain(server, log, first, |log| - 1, readers)
    && var last := |log| - 1;
       match AnswerTo(server, log, last, readers)
       case Err(code) => r == Err(code)
       case Ok(Some(key)) => r == Ok(key)
       case Ok(None) => |log| == first + (if item.objectType == 4 then 1 else 2) && r == ParseKey(item, readers)
  }

  /** What one format request comes to: an error if it is broken off, a key if it is
      converted, and neither otherwise. */
  function AnswerTo(server: Server, log: Log, k: nat, readers: Readers): Result<Option<Key>>
    requires k < |log| && log[k].Format?
  {
    var code := Broken(server, log, k, readers);
    if code.Some? then Err(code.value) else Ok(Converted(server, log, k, readers))
  }

  /** Format requests that neither brought a key nor broke the negotiation off. */
  ghost predicate InVain(server: Server, log: Log, from: nat, to: int, readers: Readers) {
    forall k :: from <= k < to && k < |log| ==> log[k].Format? && AnswerTo(server, log, k, readers) == Ok(None)
  }

  /** The key is what the parser reads from one reply, bytes and label alike; only
      a public key that is a SubjectPublicKeyInfo changes its label, from PKCS#8
      to X.509. If the request asked for a format, the label is that format. */
  ghost predicate ReadFrom(server: Server, log: Log, k: nat, key: Key, readers: Readers)
    requires k < |log|
  {
    var item := GetAt(server, log, k);
    && item.Ok? && ParseKey(item.value, readers).Ok?
    && var parsed := ParseKey(item.value, readers).value;
       && (log[k].Format? ==> parsed.format == Some(log[k].format))
       && (|| key == parsed
           || (&& parsed.keyType.PublicKey? && parsed.format == Some(4) && readers.isSpki(parsed.value)
               && key == parsed.(format := Some(5))))
  }

  // ------------------------------------------------------------- negotiation

  lemma HolderLabel(holder: Element, keyType: KeyType, parse: AttributesParser)
    ensures var r := ParseKeyHolder(holder, keyType, parse);
            r.Ok? ==>
              var block := GetChild(holder, TAG_KEY_BLOCK);
              && block.Some? && GetChild(block.value, TAG_KEY_FORMAT_TYPE).Some?
              && ToEnum(GetChild(block.value, TAG_KEY_FORMAT_TYPE).value).Ok?
              && r.value.format == Some(ToEnum(GetChild(block.value, TAG_KEY_FORMAT_TYPE).value).value)
              && r.value.keyType == keyType
  {
  }

  /** A key that parses has a label, the one looked at before parsing, and the type
      that the object type names. */
  lemma SameLabel(item: GetItem, readers: Readers)
    requires GetItemFrom(item.payload) == Ok(item)
    ensures ParseKey(item, readers).Ok? ==>
              && KeyFormatType(item) == Ok(ParseKey(item, readers).value.format)
              && KeyTypeOf(item.objectType) == Ok(ParseKey(item, readers).value.keyType)
  {
    if KeyTypeOf(item.objectType).Ok? {
      HolderLabel(item.holder, KeyTypeOf(item.objectType).value, readers.attributes);
    }
  }

  lemma ItemIsRead(items: seq<ResponseBatchItem>)
    ensures GetResponse(items).Ok? ==> GetItemFrom(GetResponse(items).value.payload) == GetResponse(items)
  {
  }

  lemma FormatExactly(server: Server, log: Log, k: nat, readers: Readers)
    requires k < |log| && log[k].Format?
    ensures FormatResult(server(k, log[k]), log[k].format, readers) == AnswerTo(server, log, k, readers)
    ensures Converted(server, log, k, readers).Some? ==> Broken(server, log, k, readers).None?
  {
    var reply := server(k, log[k]);
    if reply.Received? && GetResponse(reply.items).Ok? {
      ItemIsRead(reply.items);
      SameLabel(GetResponse(reply.items).value, readers);
    }
  }

  /** What is made of the key at hand. */
  lemma AtHandExactly(item: GetItem, readers: Readers)
    requires GetItemFrom(item.payload) == Ok(item) && (item.objectType == 3 || item.objectType == 4)
    ensures var r := KeyIn(item, PreferredFormats(item.objectType), readers);
            var key, code := AtHand(item, readers), WhyNotAtHand(item, readers);
            && (key.Some? ==> code.None?)
            && r == if code.Some? then Err(code.value) else Ok(key)
  {
    SameLabel(item, readers);
  }

  /** One request for a format. */
  method AskFormat(server: Server, log: Log, format: int32, readers: Readers)
    returns (r: Result<Option<Key>>, log': Log)
    ensures log' == log + [Format(format)] && r == AnswerTo(server, log', |log|, readers)
  {
    var request := Format(format);
    var reply := server(|log|, request);
    log' := log + [request];
    r := FormatResult(reply, format, readers);
    FormatExactly(server, log', |log|, readers);
  }

  /** Format requests in this order, from `from` on. */
  ghost predicate Asked(formats: seq<int32>, from: nat, log: Log) {
    from <= |log| <= from + |formats| && forall k :: from <= k < |log| ==> log[k] == Format(formats[k - from])
  }

  /** Asks for each format in turn, until one is answered in it. */
  method AskFormats(server: Server, log: Log, formats: seq<int32>, readers: Readers)
    returns (r: Result<Option<Key>>, log': Log)
    ensures log <= log' && Asked(formats, |log|, log') && InVain(server, log', |log|, |log'| - 1, readers)
    ensures if log' == log then formats == [] && r == Ok(None)
            else r == AnswerTo(server, log', |log'| - 1, readers) && (r == Ok(None) ==> |log'| == |log| + |formats|)
  {
    log' := log;
    r := Ok(None);
    for i := 0 to |formats|
      invariant log <= log' && |log'| == |log| + i && r == Ok(None)
      invariant AskedInVain(server, formats, |log|, log', readers)
    {
      ghost var before := log';
      r, log' := AskFormat(server, log', formats[i], readers);
      NextFormat(server, formats, |log|, before, log', readers);
      if r.Err? || r.value.Some? {
        return;
      }
    }
  }

  ghost predicate AskedInVain(server: Server, formats: seq<int32>, from: nat, log: Log, readers: Readers) {
    Asked(formats, from, log) && InVain(server, log, from, |log|, readers)
  }

  lemma NextFormat(server: Server, formats: seq<int32>, from: nat, log: Log, log': Log, readers: Readers)
    requires AskedInVain(server, formats, from, log, readers) && |log| < from + |formats|
    requires log' == log + [Format(formats[|log| - from])]
    ensures Asked(formats, from, log') && InVain(server, log', from, |log'| - 1, readers)
    ensures AnswerTo(server, log', |log|, readers) == Ok(None) ==> AskedInVain(server, formats, from, log', readers)
  {
    forall k | from <= k < |log| ensures log'[k].Format? && AnswerTo(server, log', k, readers) == Ok(None) {
      assert log'[k] == log[k];
      assert AnswerTo(server, log', k, readers) == AnswerTo(server, log, k, readers);
    }
  }

  /** The key in a preferred format: the one at hand, with no request, one fetched
      anew, or, when every format has been asked for, the one at hand as it is. */
  method KeyFromGetResponse(server: Server, log: Log, item: GetItem, readers: Readers)
    returns (r: Result<Key>, log': Log)
    requires GetItemFrom(item.payload) == Ok(item)
    ensures log <= log' && Negotiated(server, log', |log|, item, r, readers)
  {
    log' := log;
    var formats := PreferredFormats(item.objectType);
    if formats == [] {
      return ParseKey(item, readers), log;
    }
    AtHandExactly(item, readers);
    var atHand := KeyIn(item, formats, readers);
    if atHand.Err? {
      return Err(atHand.code), log;
    }
    if atHand.value.Some? {
      return Ok(atHand.value.value), log;
    }
    var answer;
    answer, log' := AskFormats(server, log, formats, readers);
    if answer.Err? {
      return Err(answer.code), log';
    }
    if answer.value.Some? {
      return Ok(answer.value.value), log';
    }
    r := ParseKey(item, readers);
  }

  // ------------------------------------------------------ what follows from it

  /** The first reply in the format asked for is the last, and its key the result. */
  lemma ConvertedIsReturned(server: Server, log: Log, first: nat, item: GetItem, r: Result<Key>, k: nat,
                            readers: Readers)
    requires Negotiated(server, log, first, item, r, readers) && first <= k < |log|
    ensures log[k].Format?
    ensures Converted(server, log, k, readers).Some? ==>
              k == |log| - 1 && r == Ok(Converted(server, log, k, readers).value)
  {
    RefetchedIsReturned(server, log, first, item, r, k, readers);
  }

  lemma RefetchedIsReturned(server: Server, log: Log, first: nat, item: GetItem, r: Result<Key>, k: nat,
                            readers: Readers)
    requires Refetched(server, log, first, item, r, readers) && first <= k < |log|
    ensures log[k].Format?
    ensures Converted(server, log, k, readers).Some? ==>
              k == |log| - 1 && r == Ok(Converted(server, log, k, readers).value)
  {
    FormatExactly(server, log, k, readers);
    assert AnswerTo(server, log, k, readers) == Ok(None) ==> Converted(server, log, k, readers).None?;
  }

  /** Negotiation fails with codes of the client only, */
  lemma NegotiationCodes(server: Server, log: Log, first: nat, item: GetItem, r: Result<Key>, readers: Readers)
    requires WellBehaved(readers) && Negotiated(server, log, first, item, r, readers)
    requires GetItemFrom(item.payload) == Ok(item)
    ensures r.Err? ==> ClientCode(r.code)
  {
    ParseCodes(item, readers);
    if |log| > first {
      RefetchedCodes(server, log, first, item, r, readers);
    } else {
      UnreadableCodes(item, if item.objectType == 4 then [4] else [5, 4], readers);
    }
  }

  lemma UnreadableCodes(item: GetItem, formats: seq<int32>, readers: Readers)
    requires WellBehaved(readers)
    ensures var code := Unreadable(item, formats, readers); code.Some? ==> ClientCode(code.value)
  {
    ParseCodes(item, readers);
  }

  lemma RefetchedCodes(server: Server, log: Log, first: nat, item: GetItem, r: Result<Key>, readers: Readers)
    requires WellBehaved(readers) && Refetched(server, log, first, item, r, readers)
    ensures r.Err? ==> ClientCode(r.code)
  {
    ParseCodes(item, readers);
    FormatExactly(server, log, |log| - 1, readers);
    NoReasonEscapes(server(|log| - 1, log[|log| - 1]), log[|log| - 1].format, readers);
  }

  /** and not at all if the key at hand can be read and no format request is broken
      off: a server's refusals never fail it. */
  lemma NegotiationFails(server: Server, log: Log, first: nat, item: GetItem, r: Result<Key>, readers: Readers)
    requires Negotiated(server, log, first, item, r, readers) && GetItemFrom(item.payload) == Ok(item)
    requires r.Err? && ParseKey(item, readers).Ok?
    ensures |log| > first && log[|log| - 1].Format? && Broken(server, log, |log| - 1, readers) == Some(r.code)
  {
    SameLabel(item, readers);
  }

  /** Bytes and label of the key come from one reply: the last, or the plain Get's. */
  lemma KeyIsRead(server: Server, log: Log, k: nat, item: GetItem, key: Key, readers: Readers)
    requires k < |log| && log[k].Batch? && GetAt(server, log, k) == Ok(item)
    requires Negotiated(server, log, k + 1, item, Ok(key), readers)
    ensures ReadFrom(server, log, |log| - 1, key, readers) || ReadFrom(server, log, k, key, readers)
  {
    ItemIsRead(server(k, log[k]).items);
    SameLabel(item, readers);
  }

  // --------------------------------------------------------------- the run

  /** The three batches a run may try, in order. */
  function Ladder(selectors: bool): seq<Request> {
    [Batch(false, selectors), Batch(true, selectors), Batch(true, false)]
  }

  /** Batch `k` was rejected: Invalid Message, Invalid Field or Feature Not Supported. */
  ghost predicate RejectedAt(server: Server, log: Log, k: nat, readers: Readers)
    requires k < |log|
  {
    var r := BatchAt(server, log, k, readers);
    r.Err? && (r.code == 4 || r.code == 7 || r.code == 8)
  }

  /** The first `n` requests are the batches of a run, in order: with the names of the
      protocol version, with legacy names, and with legacy names and no selectors;
      legacy names are for KMIP 2.0, and the third is for a run with selectors. */
  ghost predicate Climbed(selectors: bool, v2: bool, log: Log, n: nat) {
    && n <= 3 && n <= |log|
    && (n >= 1 ==> log[0] == Batch(false, selectors))
    && (n >= 2 ==> v2 && log[1] == Batch(true, selectors))
    && (n == 3 ==> selectors && log[2] == Batch(true, false))
  }

  /** What a run from batch `k` on returns: the error of the batch itself, with nothing
      asked for after it, or what its key comes to. */
  ghost predicate Outcome(server: Server, log: Log, k: nat, r: Result<Key>, readers: Readers)
    requires k < |log|
  {
    var batch := BatchAt(server, log, k, readers);
    if batch.Err? then r == Err(batch.code) && |log| == k + 1
    else Negotiated(server, log, k + 1, batch.value, r, readers)
  }

  /** One batch, and the negotiation its answer leads to. */
  method Execute(server: Server, log: Log, request: Request, readers: Readers) returns (r: Result<Key>, log': Log)
    requires request.Batch?
    ensures log + [request] <= log' && Outcome(server, log', |log|, r, readers)
  {
    log' := log + [request];
    var reply := server(|log|, request);
    var item :- BatchResult(reply, readers);
    ItemIsRead(reply.items);
    ghost var batched := log';
    r, log' := KeyFromGetResponse(server, log', item, readers);
    assert log'[|log|] == batched[|log|];
  }

  /** An error to retry is the batch's own, and nothing was asked for after it. */
  lemma RetryIsForTheBatch(server: Server, log: Log, k: nat, r: Result<Key>, readers: Readers)
    requires WellBehaved(readers)
    requires k < |log| && Outcome(server, log, k, r, readers) && r.Err? && ShouldRetry(r.code)
    ensures |log| == k + 1 && RejectedAt(server, log, k, readers)
  {
    var batch := BatchAt(server, log, k, readers);
    if batch.Ok? {
      ItemIsRead(server(k, log[k]).items);
      NegotiationCodes(server, log, k + 1, batch.value, r, readers);
    }
  }

  /** The first `n` batches were tried and rejected. */
  ghost predicate Tried(server: Server, selectors: bool, v2: bool, log: Log, n: nat, readers: Readers) {
    Climbed(selectors, v2, log, n) && forall k :: 0 <= k < n ==> RejectedAt(server, log, k, readers)
  }

  lemma TriedBefore(server: Server, selectors: bool, v2: bool, log: Log, log': Log, n: nat, readers: Readers)
    requires |log| == n && Tried(server, selectors, v2, log, n, readers) && log <= log'
    ensures Tried(server, selectors, v2, log', n, readers)
  {
    forall k | 0 <= k < n ensures log'[k] == log[k] && RejectedAt(server, log', k, readers) {
      assert log'[k] == log[k] && RejectedAt(server, log, k, readers);
    }
  }

  /** The next batch of the ladder, after `n` rejected ones. */
  method Climb(server: Server, selectors: bool, ghost v2: bool, log: Log, n: nat, readers: Readers)
    returns (r: Result<Key>, log': Log)
    requires WellBehaved(readers)
    requires n < 3 && |log| == n && Tried(server, selectors, v2, log, n, readers)
    requires (n > 0 ==> v2) && (n == 2 ==> selectors)
    ensures Tried(server, selectors, v2, log', n, readers) && Climbed(selectors, v2, log', n + 1)
    ensures n < |log'| && Outcome(server, log', n, r, readers)
    ensures r.Err? && ShouldRetry(r.code) ==> |log'| == n + 1 && Tried(server, selectors, v2, log', n + 1, readers)
  {
    var request := Ladder(selectors)[n];
    r, log' := Execute(server, log, request, readers);
    assert log'[n] == (log + [request])[n] && log <= log';
    TriedBefore(server, selectors, v2, log, log', n, readers);
    if r.Err? && ShouldRetry(r.code) {
      RetryIsForTheBatch(server, log', n, r, readers);
    }
  }

  /** How a run of `batches` batches ends: all but the last were rejected, the last one
      decides, and a rejection is returned only when no batch is left to try. */
  ghost predicate Ended(server: Server, selectors: bool, v2: bool, log: Log, batches: nat, r: Result<Key>,
                        readers: Readers) {
    && 1 <= batches <= 3 && batches <= |log| && Climbed(selectors, v2, log, batches)
    && (forall k :: 0 <= k < batches - 1 ==> RejectedAt(server, log, k, readers))
    && Outcome(server, log, batches - 1, r, readers)
    && (r.Err? && (r.code == 4 || r.code == 7 || r.code == 8) ==>
          batches == if !v2 then 1 else if !selectors then 2 else 3)
  }

  /** The rest of a run whose first batch was rejected. */
  method RetryWithLegacyNames(server: Server, selectors: bool, log: Log, readers: Readers)
    returns (r: Result<Key>, log': Log, batches: nat)
    requires WellBehaved(readers) && |log| == 1 && Tried(server, selectors, true, log, 1, readers)
    ensures Ended(server, selectors, true, log', batches, r, readers)
  {
    batches := 2;
    r, log' := Climb(server, selectors, true, log, 1, readers);
    if r.Ok? || !selectors || !ShouldRetry(r.code) {
      return;
    }
    batches := 3;
    r, log' := Climb(server, selectors, true, log', 2, readers);
  }

  /** Fetches a key in at most three batches, each retry answering a rejection of
      the batch before, then at most two format requests, which are never
      repeated. A code to retry is returned only when no batch is left to try. */
  method OpGetKey(server: Server, version: ProtocolVersion, allAttributes: bool, readers: Readers)
    returns (r: Result<Key>, log: Log, batches: nat)
    requires WellBehaved(readers)
    ensures Ended(server, !allAttributes, version.IsAtLeast(2, 0), log, batches, r, readers)
  {
    var selectors, v2 := !allAttributes, version.IsAtLeast(2, 0);
    batches := 1;
    r, log := Climb(server, selectors, v2, [], 0, readers);
    if r.Ok? || !v2 || !ShouldRetry(r.code) {
      return;
    }
    r, log, batches := RetryWithLegacyNames(server, selectors, log, readers);
  }
}
