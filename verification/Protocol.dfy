/** Request and response messages and their TTLV trees. */
module Protocol {
  import opened Prelude
  import opened Buffers
  import opened Ttlv
  import opened TtlvCodec
  import opened Elements

  const STATUS_OPERATION_FAILED: int32 := 1
  const CRED_USERNAME_AND_PASSWORD: int32 := 1
  const DEFAULT_MAX_RESPONSE_SIZE: nat := 1024 * 1024

  datatype ProtocolVersion = ProtocolVersion(major: int32, minor: int32) {
    predicate IsAtLeast(maj: int32, min: int32) {
      major > maj || (major == maj && minor >= min)
    }
  }

  datatype RequestHeader = RequestHeader(
    version: ProtocolVersion,
    batchCount: int32,
    maxResponseSize: Option<int32>,
    timeStamp: Option<int64>,
    batchOrder: Option<bool>,
    userName: Option<seq<byte>>,
    password: Option<seq<byte>>)

  datatype RequestBatchItem = RequestBatchItem(id: uint32, operation: int32, payload: Option<Element>)

  datatype ResponseHeader = ResponseHeader(version: ProtocolVersion, timeStamp: int64, batchCount: int32)

  datatype ResponseBatchItem = ResponseBatchItem(
    id: uint32,
    operation: int32,
    status: int32,
    reason: Option<int32>,
    message: Option<seq<byte>>,
    payload: Option<Element>)

  datatype Request = Request(header: RequestHeader, items: seq<RequestBatchItem>)
  datatype Response = Response(header: ResponseHeader, items: seq<ResponseBatchItem>)

  // -------------------------------------------------------- version checking

  /** Date-Time Extended exists from KMIP 2.0 on; the check is on every node. */
  predicate VersionValid(e: Element, version: ProtocolVersion)
    decreases e
  {
    && (e.value.DateTimeExtended? ==> version.IsAtLeast(2, 0))
    && (e.value.Structure? ==> forall c :: c in e.value.items ==> VersionValid(c, version))
  }

  method ValidateElementTypes(e: Element, version: ProtocolVersion) returns (r: Result<()>)
    ensures r == if VersionValid(e, version) then Ok(()) else Err(GENERAL_FAILURE)
    decreases e
  {
    if e.value.DateTimeExtended? && !version.IsAtLeast(2, 0) {
      return Err(GENERAL_FAILURE);
    }
    if e.value.Structure? {
      for i := 0 to |e.value.items|
        invariant forall c :: c in e.value.items[..i] ==> VersionValid(c, version)
      {
        assert e.value.items[i] in e.value.items;
        r := ValidateElementTypes(e.value.items[i], version);
        if r.Err? {
          return;
        }
      }
    }
    return Ok(());
  }

  // ------------------------------------------------------------ batch item id

  function EncodeBatchItemId(id: uint32): (s: seq<byte>)
    ensures s == BigEndian(id, 4)
  {
    Be32(id)
  }

  /** The id spelled by one to four bytes, most significant first. */
  function BatchItemId(encoded: seq<byte>): (r: Option<uint32>) {
    if encoded == [] || |encoded| > 4 then None
    else
      BigEndianFromBigEndian(encoded);
      Pow256Monotone(|encoded|, 4);
      Pow256Values();
      Some(FromBigEndian(encoded))
  }

  lemma {:induction false} Pow256Monotone(a: nat, b: nat)
    requires a <= b
    ensures Pow256(a) <= Pow256(b)
  {
    if a < b {
      Pow256Monotone(a, b - 1);
    }
  }

  /** The 32-bit accumulator never loses a byte of an id it accepts. */
  method DecodeBatchItemId(encoded: seq<byte>) returns (r: Option<uint32>)
    ensures r == BatchItemId(encoded)
  {
    if encoded == [] || |encoded| > 4 {
      return None;
    }
    var decoded: uint32 := 0;
    Pow256Values();
    for i := 0 to |encoded|
      invariant decoded == FromBigEndian(encoded[..i])
    {
      assert encoded[..i + 1][..i] == encoded[..i];
      BigEndianFromBigEndian(encoded[..i]);
      BigEndianFromBigEndian(encoded[..i + 1]);
      Pow256Monotone(i, 3);
      decoded := decoded * 0x100 % 0x1_0000_0000 + encoded[i] as int;
    }
    assert encoded[..|encoded|] == encoded;
    return Some(decoded);
  }

  lemma BatchItemIdRoundTrip(id: uint32)
    ensures BatchItemId(EncodeBatchItemId(id)) == Some(id)
  {
    Pow256Values();
    FromBigEndianBigEndian(id, 4);
  }

  // ----------------------------------------------------------------- to trees

  function VersionElement(v: ProtocolVersion): Element {
    Element(TAG_PROTOCOL_VERSION, Structure([
      Element(TAG_PROTOCOL_VERSION_MAJOR, Integer(v.major)),
      Element(TAG_PROTOCOL_VERSION_MINOR, Integer(v.minor))]))
  }

  function IntegerField(tag: Tag, o: Option<int32>): Option<Element> {
    if o.Some? then Some(Element(tag, Integer(o.value))) else None
  }

  function EnumField(tag: Tag, o: Option<int32>): Option<Element> {
    if o.Some? then Some(Element(tag, Enumeration(o.value))) else None
  }

  function BoolField(tag: Tag, o: Option<bool>): Option<Element> {
    if o.Some? then Some(Element(tag, Boolean(o.value))) else None
  }

  function TimeField(tag: Tag, o: Option<int64>): Option<Element> {
    if o.Some? then Some(Element(tag, DateTime(o.value))) else None
  }

  function TextField(tag: Tag, o: Option<seq<byte>>): Option<Element> {
    if o.Some? then Some(Element(tag, TextString(o.value))) else None
  }

  function IdField(id: uint32): Option<Element> {
    if id != 0 then Some(Element(TAG_UNIQUE_BATCH_ITEM_ID, ByteString(EncodeBatchItemId(id)))) else None
  }

  function CredentialFields(userName: Option<seq<byte>>, password: Option<seq<byte>>): seq<Option<Element>> {
    [TextField(TAG_USERNAME, userName), TextField(TAG_PASSWORD, password)]
  }

  function AuthenticationField(userName: Option<seq<byte>>, password: Option<seq<byte>>): Option<Element> {
    if userName.None? && password.None? then None
    else
      var value := Element(TAG_CREDENTIAL_VALUE, Structure(Fields(CredentialFields(userName, password))));
      var credential := Element(TAG_CREDENTIAL,
        Structure([Element(TAG_CREDENTIAL_TYPE, Enumeration(CRED_USERNAME_AND_PASSWORD)), value]));
      Some(Element(TAG_AUTHENTICATION, Structure([credential])))
  }

  function RequestHeaderFields(h: RequestHeader): seq<Option<Element>> {
    [Some(VersionElement(h.version)),
     IntegerField(TAG_MAXIMUM_RESPONSE_SIZE, h.maxResponseSize),
     BoolField(TAG_BATCH_ORDER_OPTION, h.batchOrder),
     TimeField(TAG_TIME_STAMP, h.timeStamp),
     AuthenticationField(h.userName, h.password),
     IntegerField(TAG_BATCH_COUNT, Some(h.batchCount))]
  }

  function RequestHeaderElement(h: RequestHeader): Element {
    Element(TAG_REQUEST_HEADER, Structure(Fields(RequestHeaderFields(h))))
  }

  function RequestItemFields(item: RequestBatchItem): seq<Option<Element>> {
    [EnumField(TAG_OPERATION, Some(item.operation)), IdField(item.id), item.payload]
  }

  function RequestItemElement(item: RequestBatchItem): Element {
    Element(TAG_BATCH_ITEM, Structure(Fields(RequestItemFields(item))))
  }

  function ResponseHeaderElement(h: ResponseHeader): Element {
    Element(TAG_RESPONSE_HEADER, Structure([
      VersionElement(h.version),
      Element(TAG_TIME_STAMP, DateTime(h.timeStamp)),
      Element(TAG_BATCH_COUNT, Integer(h.batchCount))]))
  }

  function ResponseItemFields(item: ResponseBatchItem): seq<Option<Element>> {
    [EnumField(TAG_OPERATION, Some(item.operation)),
     IdField(item.id),
     EnumField(TAG_RESULT_STATUS, Some(item.status)),
     EnumField(TAG_RESULT_REASON, item.reason),
     TextField(TAG_RESULT_MESSAGE, item.message),
     item.payload]
  }

  function ResponseItemElement(item: ResponseBatchItem): Element {
    Element(TAG_BATCH_ITEM, Structure(Fields(ResponseItemFields(item))))
  }

  function RequestItemElements(items: seq<RequestBatchItem>): (s: seq<Element>)
    ensures |s| == |items| && forall i :: 0 <= i < |s| ==> s[i] == RequestItemElement(items[i])
  {
    seq(|items|, i requires 0 <= i < |items| => RequestItemElement(items[i]))
  }

  function ResponseItemElements(items: seq<ResponseBatchItem>): (s: seq<Element>)
    ensures |s| == |items| && forall i :: 0 <= i < |s| ==> s[i] == ResponseItemElement(items[i])
  {
    seq(|items|, i requires 0 <= i < |items| => ResponseItemElement(items[i]))
  }

  function RequestElement(r: Request): Element {
    Element(TAG_REQUEST_MESSAGE, Structure([RequestHeaderElement(r.header)] + RequestItemElements(r.items)))
  }

  function ResponseElement(r: Response): Element {
    Element(TAG_RESPONSE_MESSAGE, Structure([ResponseHeaderElement(r.header)] + ResponseItemElements(r.items)))
  }

  // --------------------------------------------------------------- from trees

  predicate IsStructure(e: Element, tag: Tag) {
    e.tag == tag && e.value.Structure?
  }

  function OptInt(e: Option<Element>): Result<Option<int32>> {
    if e.None? then Ok(None) else var n :- ToInt(e.value); Ok(Some(n))
  }

  function OptEnum(e: Option<Element>): Result<Option<int32>> {
    if e.None? then Ok(None) else var n :- ToEnum(e.value); Ok(Some(n))
  }

  function OptLong(e: Option<Element>): Result<Option<int64>> {
    if e.None? then Ok(None) else var n :- ToLong(e.value); Ok(Some(n))
  }

  function OptBool(e: Option<Element>): Result<Option<bool>> {
    if e.None? then Ok(None) else var b :- ToBool(e.value); Ok(Some(b))
  }

  function OptText(e: Option<Element>): Result<Option<seq<byte>>> {
    if e.None? then Ok(None) else var t :- ToText(e.value); Ok(Some(t))
  }

  function GetOr<T>(o: Option<T>, default: T): T {
    if o.Some? then o.value else default
  }

  function VersionFrom(e: Element): Result<ProtocolVersion> {
    if !IsStructure(e, TAG_PROTOCOL_VERSION) then Err(GENERAL_FAILURE)
    else
      var major :- OptInt(GetChild(e, TAG_PROTOCOL_VERSION_MAJOR));
      var minor :- OptInt(GetChild(e, TAG_PROTOCOL_VERSION_MINOR));
      Ok(ProtocolVersion(GetOr(major, 1), GetOr(minor, 4)))
  }

  /** User name and password, when the credential is of that type. */
  function CredentialsFrom(authentication: Option<Element>): Result<(Option<seq<byte>>, Option<seq<byte>>)> {
    if authentication.None? then Ok((None, None))
    else
      var credential := GetChild(authentication.value, TAG_CREDENTIAL);
      if credential.None? then Err(GENERAL_FAILURE)
      else
        var kind := GetChild(credential.value, TAG_CREDENTIAL_TYPE);
        var value := GetChild(credential.value, TAG_CREDENTIAL_VALUE);
        if kind.None? || value.None? then Err(GENERAL_FAILURE)
        else
          var k :- ToEnum(kind.value);
          if k != CRED_USERNAME_AND_PASSWORD then Ok((None, None))
          else
            var userName :- OptText(GetChild(value.value, TAG_USERNAME));
            var password :- OptText(GetChild(value.value, TAG_PASSWORD));
            Ok((userName, password))
  }

  function RequestHeaderFrom(e: Element): Result<RequestHeader> {
    if !IsStructure(e, TAG_REQUEST_HEADER) then Err(GENERAL_FAILURE)
    else
      var pv := GetChild(e, TAG_PROTOCOL_VERSION);
      if pv.None? then Err(GENERAL_FAILURE)
      else
        var version :- VersionFrom(pv.value);
        var maxResponseSize :- OptInt(GetChild(e, TAG_MAXIMUM_RESPONSE_SIZE));
        var timeStamp :- OptLong(GetChild(e, TAG_TIME_STAMP));
        var batchOrder :- OptBool(GetChild(e, TAG_BATCH_ORDER_OPTION));
        var credentials :- CredentialsFrom(GetChild(e, TAG_AUTHENTICATION));
        var batchCount :- OptInt(GetChild(e, TAG_BATCH_COUNT));
        Ok(RequestHeader(version, GetOr(batchCount, 0), maxResponseSize, timeStamp, batchOrder, credentials.0,
                         credentials.1))
  }

  /** An id the library did not write (empty or over four bytes) reads as 0. */
  function IdFrom(e: Option<Element>): Result<uint32> {
    if e.None? then Ok(0) else var b :- ToByteSeq(e.value); Ok(GetOr(BatchItemId(b), 0))
  }

  function RequestItemFrom(e: Element): Result<RequestBatchItem> {
    if !IsStructure(e, TAG_BATCH_ITEM) then Err(GENERAL_FAILURE)
    else
      var op := GetChild(e, TAG_OPERATION);
      if op.None? then Err(GENERAL_FAILURE)
      else
        var operation :- ToEnum(op.value);
        var id :- IdFrom(GetChild(e, TAG_UNIQUE_BATCH_ITEM_ID));
        Ok(RequestBatchItem(id, operation, GetChild(e, TAG_REQUEST_PAYLOAD)))
  }

  function ResponseHeaderFrom(e: Element): Result<ResponseHeader> {
    if !IsStructure(e, TAG_RESPONSE_HEADER) then Err(GENERAL_FAILURE)
    else
      var pv := GetChild(e, TAG_PROTOCOL_VERSION);
      if pv.None? then Err(GENERAL_FAILURE)
      else
        var version :- VersionFrom(pv.value);
        var timeStamp :- OptLong(GetChild(e, TAG_TIME_STAMP));
        var batchCount :- OptInt(GetChild(e, TAG_BATCH_COUNT));
        Ok(ResponseHeader(version, GetOr(timeStamp, 0), GetOr(batchCount, 0)))
  }

  function ResponseItemFrom(e: Element): Result<ResponseBatchItem> {
    if !IsStructure(e, TAG_BATCH_ITEM) then Err(GENERAL_FAILURE)
    else
      var operation :- OptEnum(GetChild(e, TAG_OPERATION));
      var id :- IdFrom(GetChild(e, TAG_UNIQUE_BATCH_ITEM_ID));
      var st := GetChild(e, TAG_RESULT_STATUS);
      if st.None? then Err(GENERAL_FAILURE)
      else
        var status :- ToEnum(st.value);
        var reason :- OptEnum(GetChild(e, TAG_RESULT_REASON));
        if status == STATUS_OPERATION_FAILED && reason.None? then Err(GENERAL_FAILURE)
        else
          var message :- OptText(GetChild(e, TAG_RESULT_MESSAGE));
          Ok(ResponseBatchItem(id, GetOr(operation, 0), status, reason, message, GetChild(e, TAG_RESPONSE_PAYLOAD)))
  }

  /** static_cast<int32_t> of a container size. */
  function Cast32(n: nat): int32 {
    Signed32(n % 0x1_0000_0000)
  }

  /** The batch items among a message's children, in order. */
  function ItemsFrom<T>(children: seq<Element>, parse: Element -> Result<T>): Result<seq<T>> {
    if children == [] then Ok([])
    else
      var init :- ItemsFrom(children[..|children| - 1], parse);
      var last := children[|children| - 1];
      if last.tag != TAG_BATCH_ITEM then Ok(init)
      else var item :- parse(last); Ok(init + [item])
  }

  function RequestFrom(e: Element): Result<Request> {
    if !IsStructure(e, TAG_REQUEST_MESSAGE) then Err(GENERAL_FAILURE)
    else
      var hdr := GetChild(e, TAG_REQUEST_HEADER);
      if hdr.None? then Err(GENERAL_FAILURE)
      else
        var header :- RequestHeaderFrom(hdr.value);
        if !VersionValid(e, header.version) then Err(GENERAL_FAILURE)
        else
          var items :- ItemsFrom(e.value.items, RequestItemFrom);
          if header.batchCount != Cast32(|items|) then Err(GENERAL_FAILURE) else Ok(Request(header, items))
  }

  /** Fewer items than declared are tolerated, more are not. */
  function ResponseFrom(e: Element): Result<Response> {
    if !IsStructure(e, TAG_RESPONSE_MESSAGE) then Err(GENERAL_FAILURE)
    else
      var hdr := GetChild(e, TAG_RESPONSE_HEADER);
      if hdr.None? then Err(GENERAL_FAILURE)
      else
        var header :- ResponseHeaderFrom(hdr.value);
        if !VersionValid(e, header.version) then Err(GENERAL_FAILURE)
        else
          var items :- ItemsFrom(e.value.items, ResponseItemFrom);
          if Cast32(|items|) > header.batchCount then Err(GENERAL_FAILURE) else Ok(Response(header, items))
  }

  // -------------------------------------------------------------- round trips

  lemma VersionRoundTrip(v: ProtocolVersion)
    ensures VersionFrom(VersionElement(v)) == Ok(v)
  {
  }

  const CREDENTIAL_TAGS: seq<Tag> := [TAG_USERNAME, TAG_PASSWORD]

  const REQUEST_HEADER_TAGS: seq<Tag> := [
    TAG_PROTOCOL_VERSION, TAG_MAXIMUM_RESPONSE_SIZE, TAG_BATCH_ORDER_OPTION,
    TAG_TIME_STAMP, TAG_AUTHENTICATION, TAG_BATCH_COUNT]

  const REQUEST_ITEM_TAGS: seq<Tag> := [TAG_OPERATION, TAG_UNIQUE_BATCH_ITEM_ID, TAG_REQUEST_PAYLOAD]

  const RESPONSE_ITEM_TAGS: seq<Tag> := [
    TAG_OPERATION, TAG_UNIQUE_BATCH_ITEM_ID, TAG_RESULT_STATUS,
    TAG_RESULT_REASON, TAG_RESULT_MESSAGE, TAG_RESPONSE_PAYLOAD]

  lemma CredentialsRoundTrip(userName: Option<seq<byte>>, password: Option<seq<byte>>)
    ensures CredentialsFrom(AuthenticationField(userName, password)) == Ok((userName, password))
  {
    var fs := CredentialFields(userName, password);
    var value := Element(TAG_CREDENTIAL_VALUE, Structure(Fields(fs)));
    FieldsFound(value, fs, CREDENTIAL_TAGS);
    assert GetChild(value, CREDENTIAL_TAGS[0]) == fs[0];
    assert GetChild(value, CREDENTIAL_TAGS[1]) == fs[1];
  }

  lemma RequestHeaderFromFields(e: Element, h: RequestHeader)
    requires e.tag == TAG_REQUEST_HEADER && HasFields(e, RequestHeaderFields(h), REQUEST_HEADER_TAGS)
    ensures RequestHeaderFrom(e) == Ok(h)
  {
    var fs := RequestHeaderFields(h);
    assert GetChild(e, REQUEST_HEADER_TAGS[0]) == fs[0];
    assert GetChild(e, REQUEST_HEADER_TAGS[1]) == fs[1];
    assert GetChild(e, REQUEST_HEADER_TAGS[2]) == fs[2];
    assert GetChild(e, REQUEST_HEADER_TAGS[3]) == fs[3];
    assert GetChild(e, REQUEST_HEADER_TAGS[4]) == fs[4];
    assert GetChild(e, REQUEST_HEADER_TAGS[5]) == fs[5];
    VersionRoundTrip(h.version);
    CredentialsRoundTrip(h.userName, h.password);
  }

  lemma RequestHeaderRoundTrip(h: RequestHeader)
    ensures RequestHeaderFrom(RequestHeaderElement(h)) == Ok(h)
  {
    FieldsFound(RequestHeaderElement(h), RequestHeaderFields(h), REQUEST_HEADER_TAGS);
    RequestHeaderFromFields(RequestHeaderElement(h), h);
  }

  predicate Tagged(payload: Option<Element>, tag: Tag) {
    payload.Some? ==> payload.value.tag == tag
  }

  lemma RequestItemFromFields(e: Element, item: RequestBatchItem)
    requires e.tag == TAG_BATCH_ITEM && HasFields(e, RequestItemFields(item), REQUEST_ITEM_TAGS)
    ensures RequestItemFrom(e) == Ok(item)
  {
    var fs := RequestItemFields(item);
    assert GetChild(e, REQUEST_ITEM_TAGS[0]) == fs[0];
    assert GetChild(e, REQUEST_ITEM_TAGS[1]) == fs[1];
    assert GetChild(e, REQUEST_ITEM_TAGS[2]) == fs[2];
    BatchItemIdRoundTrip(item.id);
  }

  /** An item is read back as written exactly when its payload carries the
      Request Payload tag, as every request of the library gives it. */
  lemma RequestItemRoundTrip(item: RequestBatchItem)
    ensures RequestItemFrom(RequestItemElement(item)) == Ok(item) <==> Tagged(item.payload, TAG_REQUEST_PAYLOAD)
  {
    if Tagged(item.payload, TAG_REQUEST_PAYLOAD) {
      FieldsFound(RequestItemElement(item), RequestItemFields(item), REQUEST_ITEM_TAGS);
      RequestItemFromFields(RequestItemElement(item), item);
    }
  }

  lemma ResponseHeaderRoundTrip(h: ResponseHeader)
    ensures ResponseHeaderFrom(ResponseHeaderElement(h)) == Ok(h)
  {
    VersionRoundTrip(h.version);
    var s := ResponseHeaderElement(h).value.items;
    assert s[1..][1..] == s[2..];
  }

  /** A failed item without a reason is refused on the way back. */
  predicate Readable(item: ResponseBatchItem) {
    && Tagged(item.payload, TAG_RESPONSE_PAYLOAD)
    && (item.status == STATUS_OPERATION_FAILED ==> item.reason.Some?)
  }

  lemma ResponseItemFromFields(e: Element, item: ResponseBatchItem)
    requires e.tag == TAG_BATCH_ITEM && HasFields(e, ResponseItemFields(item), RESPONSE_ITEM_TAGS)
    ensures ResponseItemFrom(e) == Ok(item) <==> (item.status == STATUS_OPERATION_FAILED ==> item.reason.Some?)
  {
    var fs := ResponseItemFields(item);
    assert GetChild(e, RESPONSE_ITEM_TAGS[0]) == fs[0];
    assert GetChild(e, RESPONSE_ITEM_TAGS[1]) == fs[1];
    assert GetChild(e, RESPONSE_ITEM_TAGS[2]) == fs[2];
    assert GetChild(e, RESPONSE_ITEM_TAGS[3]) == fs[3];
    assert GetChild(e, RESPONSE_ITEM_TAGS[4]) == fs[4];
    assert GetChild(e, RESPONSE_ITEM_TAGS[5]) == fs[5];
    BatchItemIdRoundTrip(item.id);
  }

  lemma ResponseItemTags(item: ResponseBatchItem)
    requires Tagged(item.payload, TAG_RESPONSE_PAYLOAD)
    ensures TagsAre(ResponseItemFields(item), RESPONSE_ITEM_TAGS)
  {
  }

  lemma ResponseItemRoundTrip(item: ResponseBatchItem)
    ensures ResponseItemFrom(ResponseItemElement(item)) == Ok(item) <==> Readable(item)
  {
    var e := ResponseItemElement(item);
    if Tagged(item.payload, TAG_RESPONSE_PAYLOAD) {
      ResponseItemTags(item);
      FieldsFound(e, ResponseItemFields(item), RESPONSE_ITEM_TAGS);
      ResponseItemFromFields(e, item);
    } else {
      LostPayload(e, item);
    }
  }

  lemma LostPayload(e: Element, item: ResponseBatchItem)
    requires !Tagged(item.payload, TAG_RESPONSE_PAYLOAD)
    ensures ResponseItemFrom(e) != Ok(item)
  {
  }

  lemma {:induction false} ItemsRoundTrip<T(!new)>(h: Element, es: seq<Element>, parse: Element -> Result<T>,
                                                   items: seq<T>)
    requires h.tag != TAG_BATCH_ITEM && |es| == |items|
    requires forall i :: 0 <= i < |es| ==> es[i].tag == TAG_BATCH_ITEM
    ensures ItemsFrom([h] + es, parse) == Ok(items) <==> forall i :: 0 <= i < |es| ==> parse(es[i]) == Ok(items[i])
  {
    var children := [h] + es;
    if es == [] {
      assert children[..|children| - 1] == [];
    } else {
      var n := |es| - 1;
      assert children[..|children| - 1] == [h] + es[..n];
      assert items == items[..n] + [items[n]];
      ItemsRoundTrip(h, es[..n], parse, items[..n]);
    }
  }

  /** A request message is read back as it stands exactly when it is valid for
      its version, its count matches its items and its payloads carry their tag. */
  lemma RequestRoundTrip(r: Request)
    ensures RequestFrom(RequestElement(r)) == Ok(r)
            <==> && VersionValid(RequestElement(r), r.header.version)
                 && r.header.batchCount == Cast32(|r.items|)
                 && forall i :: 0 <= i < |r.items| ==> Tagged(r.items[i].payload, TAG_REQUEST_PAYLOAD)
  {
    var h := RequestHeaderElement(r.header);
    RequestHeaderRoundTrip(r.header);
    var es := RequestItemElements(r.items);
    ItemsRoundTrip(h, es, RequestItemFrom, r.items);
    forall i | 0 <= i < |es|
      ensures RequestItemFrom(es[i]) == Ok(r.items[i]) <==> Tagged(r.items[i].payload, TAG_REQUEST_PAYLOAD)
    {
      RequestItemRoundTrip(r.items[i]);
    }
    assert GetChild(RequestElement(r), TAG_REQUEST_HEADER) == Some(h);
  }

  /** Likewise for responses: failed items must carry a reason, and there may be
      fewer items than the header declares but not more. */
  lemma ResponseRoundTrip(r: Response)
    ensures ResponseFrom(ResponseElement(r)) == Ok(r)
            <==> && VersionValid(ResponseElement(r), r.header.version)
                 && Cast32(|r.items|) <= r.header.batchCount
                 && forall i :: 0 <= i < |r.items| ==> Readable(r.items[i])
  {
    var h := ResponseHeaderElement(r.header);
    ResponseHeaderRoundTrip(r.header);
    var es := ResponseItemElements(r.items);
    ItemsRoundTrip(h, es, ResponseItemFrom, r.items);
    forall i | 0 <= i < |es| ensures ResponseItemFrom(es[i]) == Ok(r.items[i]) <==> Readable(r.items[i]) {
      ResponseItemRoundTrip(r.items[i]);
    }
    assert GetChild(ResponseElement(r), TAG_RESPONSE_HEADER) == Some(h);
  }
}
