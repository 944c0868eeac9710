/** The page of a Locate response, from the bytes received: why it holds no more
    ids than `Locate.Received` lets through. */
module LocateReply {
  import opened Prelude
  import opened Ttlv
  import opened TtlvCodec
  import opened Elements
  import opened Protocol
  import opened Messages
  import opened Framing
  import Locate

  const OP_LOCATE: int32 := 0x08

  /** The reply of a page: its ids and its Located Items. */
  type Page = r: Locate.Reply | r.Page? witness Locate.Page([], None)

  // ------------------------------------------------------------- its payload

  function IdElements(ids: seq<Locate.Id>): seq<Element> {
    if ids == [] then []
    else IdElements(ids[..|ids| - 1]) + [Element(TAG_UNIQUE_IDENTIFIER, TextString(ids[|ids| - 1]))]
  }

  function LocatedElements(located: Option<int32>): seq<Element> {
    if located.None? then [] else [Element(TAG_LOCATED_ITEMS, Integer(located.value))]
  }

  function PageElement(page: Page): Element {
    Element(TAG_RESPONSE_PAYLOAD, Structure(LocatedElements(page.located) + IdElements(page.ids)))
  }

  /** What the children read so far come to: the ids in order, and the last Located
      Items. */
  function PageOf(items: seq<Element>): Result<Page> {
    if items == [] then Ok(Locate.Page([], None))
    else
      var page :- PageOf(items[..|items| - 1]);
      var last := items[|items| - 1];
      if last.tag == TAG_LOCATED_ITEMS then
        var located :- ToInt(last);
        Ok(page.(located := Some(located)))
      else if last.tag == TAG_UNIQUE_IDENTIFIER then
        var id :- ToText(last);
        Ok(page.(ids := page.ids + [id]))
      else Ok(page)
  }

  lemma {:induction false} ErrorStays(items: seq<Element>, i: nat)
    requires i <= |items| && PageOf(items[..i]).Err?
    ensures PageOf(items) == PageOf(items[..i])
    decreases |items|
  {
    if i == |items| {
      assert items[..i] == items;
    } else {
      var init := items[..|items| - 1];
      assert init[..i] == items[..i];
      ErrorStays(init, i);
    }
  }

  method ReadPage(e: Element) returns (r: Result<Page>)
    ensures r == if e.value.Structure? then PageOf(e.value.items) else Err(GENERAL_FAILURE)
  {
    if !e.value.Structure? {
      return Err(GENERAL_FAILURE);
    }
    var items := e.value.items;
    var page: Page := Locate.Page([], None);
    for i := 0 to |items|
      invariant PageOf(items[..i]) == Ok(page)
    {
      var child := items[i];
      assert items[..i + 1][..i] == items[..i];
      if child.tag == TAG_LOCATED_ITEMS {
        var located := ToInt(child);
        if located.Err? {
          ErrorStays(items, i + 1);
          return Err(located.code);
        }
        page := page.(located := Some(located.value));
      } else if child.tag == TAG_UNIQUE_IDENTIFIER {
        var id := ToText(child);
        if id.Err? {
          ErrorStays(items, i + 1);
          return Err(id.code);
        }
        page := page.(ids := page.ids + [id.value]);
      }
    }
    assert items[..|items|] == items;
    r := Ok(page);
  }

  lemma {:induction false} IdsRead(head: seq<Element>, ids: seq<Locate.Id>, page: Page)
    requires PageOf(head) == Ok(page)
    ensures PageOf(head + IdElements(ids)) == Ok(page.(ids := page.ids + ids))
  {
    if ids == [] {
      assert head + IdElements(ids) == head && page.ids + ids == page.ids;
    } else {
      var init, last := ids[..|ids| - 1], ids[|ids| - 1];
      IdsRead(head, init, page);
      IdRead(head + IdElements(init), last);
      Attach(head, IdElements(init), Element(TAG_UNIQUE_IDENTIFIER, TextString(last)));
      Attach(page.ids, init, last);
      assert init + [last] == ids;
    }
  }

  lemma Attach<T>(a: seq<T>, b: seq<T>, x: T)
    ensures a + (b + [x]) == a + b + [x]
  {
  }

  lemma IdRead(items: seq<Element>, id: Locate.Id)
    requires PageOf(items).Ok?
    ensures var page := PageOf(items).value;
            PageOf(items + [Element(TAG_UNIQUE_IDENTIFIER, TextString(id))]) == Ok(page.(ids := page.ids + [id]))
  {
    var all := items + [Element(TAG_UNIQUE_IDENTIFIER, TextString(id))];
    assert all[..|all| - 1] == items;
  }

  /** A page is read back as it was written. */
  lemma PageRoundTrip(page: Page)
    ensures PageOf(PageElement(page).value.items) == Ok(page)
  {
    var head := LocatedElements(page.located);
    assert page.located.Some? ==> head[..0] == [];
    IdsRead(head, page.ids, Locate.Page([], page.located));
    assert [] + page.ids == page.ids;
  }

  /** The children with a tag, in order. */
  function Under(items: seq<Element>, tag: Tag): (s: seq<Element>) {
    if items == [] then []
    else
      var last := items[|items| - 1];
      Under(items[..|items| - 1], tag) + (if last.tag == tag then [last] else [])
  }

  /** What a page reads: all Unique Identifiers in order, texts each, and the last of the
      Located Items, integers each. */
  predicate Reads(items: seq<Element>, page: Page) {
    var ids, located := Under(items, 0x420094), Under(items, 0x4200D5);
    && |ids| == |page.ids| && (forall i :: 0 <= i < |ids| ==> ids[i].value == TextString(page.ids[i]))
    && (forall i :: 0 <= i < |located| ==> located[i].value.Integer?)
    && page.located == if located == [] then None else Some(located[|located| - 1].value.integer)
  }

  lemma PageExactly(items: seq<Element>, page: Page)
    ensures PageOf(items) == Ok(page) <==> Reads(items, page)
  {
    if Reads(items, page) {
      WellTypedIsRead(items);
    }
    if PageOf(items).Ok? {
      ReadsPage(items);
      if Reads(items, page) {
        assert page.ids == PageOf(items).value.ids;
      }
    }
  }

  predicate WellTyped(items: seq<Element>) {
    && (forall e :: e in Under(items, 0x420094) ==> e.value.TextString?)
    && (forall e :: e in Under(items, 0x4200D5) ==> e.value.Integer?)
  }

  lemma {:induction false} WellTypedIsRead(items: seq<Element>)
    requires WellTyped(items)
    ensures PageOf(items).Ok?
  {
    if items != [] {
      var init, last := items[..|items| - 1], items[|items| - 1];
      WellTypedIsRead(init);
      assert last.tag == 0x420094 ==> last in Under(items, 0x420094);
      assert last.tag == 0x4200D5 ==> last in Under(items, 0x4200D5);
    }
  }

  lemma {:induction false} ReadsPage(items: seq<Element>)
    requires PageOf(items).Ok?
    ensures Reads(items, PageOf(items).value)
  {
    if items != [] {
      ReadsPage(items[..|items| - 1]);
    }
  }

  // ---------------------------------------------------------------- its size

  /** Every id read was a child of at least 8 bytes. */
  lemma {:induction false} IdsTakeBytes(items: seq<Element>)
    requires PageOf(items).Ok?
    ensures Locate.ID_BYTES * |PageOf(items).value.ids| <= |EncodeAll(items)|
  {
    if items != [] {
      var init, last := items[..|items| - 1], items[|items| - 1];
      IdsTakeBytes(init);
      assert items == init + [last];
      EncodeAllSnoc(init, last);
    }
  }

  lemma {:induction false} ChildTakesBytes(items: seq<Element>, c: Element)
    requires c in items
    ensures |Encode(c)| <= |EncodeAll(items)|
  {
    if items[0] != c {
      ChildTakesBytes(items[1..], c);
    }
  }

  lemma FoundTakesBytes(e: Element, tag: Tag)
    requires GetChild(e, tag).Some?
    ensures |Encode(GetChild(e, tag).value)| + 8 <= |Encode(e)|
  {
    var i := FindsFirst(e.value.items, tag);
    ChildTakesBytes(e.value.items, e.value.items[i]);
  }

  lemma {:induction false} PayloadTakesBytes(children: seq<Element>, k: nat)
    requires ItemsFrom(children, ResponseItemFrom).Ok? && k < |ItemsFrom(children, ResponseItemFrom).value|
    requires ItemsFrom(children, ResponseItemFrom).value[k].payload.Some?
    ensures |Encode(ItemsFrom(children, ResponseItemFrom).value[k].payload.value)| + 8 <= |EncodeAll(children)|
  {
    var init, last := children[..|children| - 1], children[|children| - 1];
    assert children == init + [last];
    EncodeAllSnoc(init, last);
    if k < |ItemsFrom(init, ResponseItemFrom).value| {
      PayloadTakesBytes(init, k);
    } else {
      FoundTakesBytes(last, TAG_RESPONSE_PAYLOAD);
    }
  }

  /** The ids read from one message take at least 8 bytes of it each, without its
      own header. */
  lemma PageTakesBytes(bytes: seq<byte>, k: nat, payload: Element)
    requires ResponseOf(bytes).Ok? && k < |ResponseOf(bytes).value.items|
    requires ResponseOf(bytes).value.items[k].payload == Some(payload)
    requires payload.value.Structure? && PageOf(payload.value.items).Ok?
    ensures Locate.ID_BYTES * |PageOf(payload.value.items).value.ids| <= |bytes| - LENGTH_BYTES
  {
    PayloadTakesBytes(Decode(bytes, 0).value.value.items, k);
    IdsTakeBytes(payload.value.items);
  }

  // ------------------------------------------------------------ one exchange

  /** What an item, or the lack of one, comes to. */
  function ItemReply(item: Result<ResponseBatchItem>): Locate.Reply {
    match item
    case Err(code) => Locate.Failed(code)
    case Ok(item) =>
      var success, payload := EnsureSuccess(item), TypedPayload(item, OP_LOCATE);
      if success.Err? then Locate.Failed(success.code)
      else if payload.Err? then Locate.Failed(payload.code)
      else if !payload.value.value.Structure? then Locate.Failed(GENERAL_FAILURE)
      else
        var page := PageOf(payload.value.value.items);
        if page.Err? then Locate.Failed(page.code) else page.value
  }

  /** The reply in a message, to the one item of a request. */
  ghost predicate RepliesTo(bytes: seq<byte>, id: uint32, reply: Locate.Reply) {
    match ResponseOf(bytes)
    case Err(_) => reply.Failed?
    case Ok(response) => reply == ItemReply(Lookup(response.items, map[id := 0], id))
  }

  /** Reads the reply to the one item of a request. */
  method ReadReply(bytes: seq<byte>, request: RequestBatchItem) returns (reply: Locate.Reply)
    ensures RepliesTo(bytes, request.id, reply)
    ensures reply.Page? ==> Locate.ID_BYTES * |reply.ids| <= |bytes| - LENGTH_BYTES
  {
    var parser := new ResponseParser(bytes, [request]);
    var item := parser.GetItemByBatchItemId(request.id);
    assert parser.request[0] == request;
    if item.Err? {
      return Locate.Failed(item.code);
    }
    var success, payload := EnsureSuccess(item.value), TypedPayload(item.value, OP_LOCATE);
    if success.Err? {
      return Locate.Failed(success.code);
    }
    if payload.Err? {
      return Locate.Failed(payload.code);
    }
    var page := ReadPage(payload.value);
    if page.Err? {
      return Locate.Failed(page.code);
    }
    ghost var items := ResponseOf(bytes).value.items;
    ghost var k :| 0 <= k < |items| && items[k] == item.value;
    PageTakesBytes(bytes, k, payload.value);
    reply := page.value;
  }

  /** A successful Locate item with a page. */
  predicate Carries(item: ResponseBatchItem, page: Page) {
    item.status == STATUS_SUCCESS && item.operation == OP_LOCATE && item.payload == Some(PageElement(page))
  }

  lemma CarriedIsRead(item: ResponseBatchItem, page: Page)
    requires Carries(item, page)
    ensures ItemReply(Ok(item)) == page
  {
    PageRoundTrip(page);
  }

  lemma OnlyItem(items: seq<ResponseBatchItem>, id: uint32)
    requires |items| == 1
    ensures Lookup(items, map[id := 0], id) == Ok(items[0])
  {
  }

  /** A page that is printed in a response is the reply read from its bytes, whether
      the response echoes the id of the request or not. */
  lemma PageDelivered(response: Response, page: Page, id: uint32)
    requires Printable(response) && |response.items| == 1 && Carries(response.items[0], page)
    ensures RepliesTo(Encode(ResponseElement(response)), id, page)
  {
    var bytes := Encode(ResponseElement(response));
    assert ResponseOf(bytes) == Ok(response) by {
      ResponseBytesRoundTrip(response);
    }
    OnlyItem(response.items, id);
    CarriedIsRead(response.items[0], page);
  }

  /** One Locate over the wire. Its reply, read from one message of the stream, is
      one that `Locate.Received` lets through: longer messages are refused. */
  method FetchPage(io: IOUtils, message: RequestMessage, now: int64, q: Locate.Request)
    returns (reply: Locate.Reply, ghost received: seq<byte>)
    requires |message.items| == 1 && message.MaxResponseSize() == q.maxResponseSize
    modifies io.net
    ensures Locate.Received(reply, q) == reply
    ensures reply.Page? ==>
              && StartsWith(old(io.net.inbound), received, q.maxResponseSize)
              && RepliesTo(received, message.items[0].id, reply)
  {
    received := [];
    var bytes := ExchangeMessage(io, message, now);
    if bytes.Err? {
      return Locate.Failed(bytes.code), received;
    }
    received := bytes.value;
    reply := ReadReply(bytes.value, message.items[0]);
  }
}
