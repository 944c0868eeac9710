/** The trees of messages, tag by tag and in order (KMIP 1.4 sections 6, 7 and 9.1.3.1):
    what the round trips in `Protocol` leave open is which tags the fields have. */
module MessageTrees {
  import opened Prelude
  import opened Ttlv
  import opened Elements
  import opened Protocol

  /** An element, if there is a value for it. */
  function Given(tag: Tag, value: Option<Value>): seq<Element> {
    if value.Some? then [Element(tag, value.value)] else []
  }

  function Version(v: ProtocolVersion): Value {
    Structure([Element(0x42006A, Integer(v.major)), Element(0x42006B, Integer(v.minor))])
  }

  /** A batch item id in four bytes, most significant first, unless it is zero. */
  function BatchId(id: uint32): Option<Value> {
    if id == 0 then None
    else
      Some(ByteString([(id / 0x100_0000) as byte, (id / 0x1_0000 % 0x100) as byte, (id / 0x100 % 0x100) as byte,
                       (id % 0x100) as byte]))
  }

  /** Credentials of type 1, user name and password. */
  function Authentication(userName: Option<seq<byte>>, password: Option<seq<byte>>): Option<Value> {
    if userName.None? && password.None? then None
    else
      var user := if userName.Some? then [Element(0x420099, TextString(userName.value))] else [];
      var pass := if password.Some? then [Element(0x4200A1, TextString(password.value))] else [];
      Some(Structure([Element(0x420023, Structure([Element(0x420024, Enumeration(1)),
                                                   Element(0x420025, Structure(user + pass))]))]))
  }

  function AsInteger(o: Option<int32>): Option<Value> {
    if o.Some? then Some(Integer(o.value)) else None
  }

  function AsEnumeration(o: Option<int32>): Option<Value> {
    if o.Some? then Some(Enumeration(o.value)) else None
  }

  function AsBoolean(o: Option<bool>): Option<Value> {
    if o.Some? then Some(Boolean(o.value)) else None
  }

  function AsTime(o: Option<int64>): Option<Value> {
    if o.Some? then Some(DateTime(o.value)) else None
  }

  function AsText(o: Option<seq<byte>>): Option<Value> {
    if o.Some? then Some(TextString(o.value)) else None
  }

  // ------------------------------------------------------------------ headers

  lemma CredentialTree(userName: Option<seq<byte>>, password: Option<seq<byte>>)
    ensures AuthenticationField(userName, password) ==
            var value := Authentication(userName, password);
            if value.Some? then Some(Element(0x42000C, value.value)) else None
  {
    var fs := CredentialFields(userName, password);
    FieldsFrom(fs, 0);
    FieldsFrom(fs, 1);
    assert fs[0..] == fs && fs[2..] == [];
    assert Fields(fs) == Present(fs[0]) + Present(fs[1]);
  }

  /** A request header: Protocol Version, Maximum Response Size, Batch Order Option,
      Time Stamp, Authentication and Batch Count. */
  lemma RequestHeaderTree(h: RequestHeader)
    ensures RequestHeaderElement(h) ==
            Element(0x420077, Structure(
              [Element(0x420069, Version(h.version))]
              + (Given(0x420050, AsInteger(h.maxResponseSize))
                 + (Given(0x420010, AsBoolean(h.batchOrder))
                    + (Given(0x420092, AsTime(h.timeStamp))
                       + (Given(0x42000C, Authentication(h.userName, h.password))
                          + [Element(0x42000D, Integer(h.batchCount))]))))))
  {
    var fs := RequestHeaderFields(h);
    CredentialTree(h.userName, h.password);
    SixFields(fs);
  }

  /** A response header: Protocol Version, Time Stamp and Batch Count. */
  lemma ResponseHeaderTree(h: ResponseHeader)
    ensures ResponseHeaderElement(h) ==
            Element(0x42007A, Structure([
              Element(0x420069, Version(h.version)),
              Element(0x420092, DateTime(h.timeStamp)),
              Element(0x42000D, Integer(h.batchCount))]))
  {
  }

  // -------------------------------------------------------------------- items

  lemma BatchIdTree(id: uint32)
    ensures IdField(id) == if BatchId(id).Some? then Some(Element(0x420093, BatchId(id).value)) else None
  {
  }

  /** A request item: Operation, Unique Batch Item ID and its payload. */
  lemma RequestItemTree(item: RequestBatchItem)
    ensures RequestItemElement(item) ==
            Element(0x42000F, Structure(
              [Element(0x42005C, Enumeration(item.operation))]
              + (Given(0x420093, BatchId(item.id)) + Present(item.payload))))
  {
    var fs := RequestItemFields(item);
    BatchIdTree(item.id);
    FieldsFrom(fs, 0);
    FieldsFrom(fs, 1);
    FieldsFrom(fs, 2);
    assert fs[0..] == fs && fs[3..] == [];
    assert Fields(fs) == Present(fs[0]) + (Present(fs[1]) + Present(fs[2]));
  }

  /** A response item: Operation, Unique Batch Item ID, Result Status, Result Reason,
      Result Message and its payload. */
  lemma ResponseItemTree(item: ResponseBatchItem)
    ensures ResponseItemElement(item) ==
            Element(0x42000F, Structure(
              [Element(0x42005C, Enumeration(item.operation))]
              + (Given(0x420093, BatchId(item.id))
                 + ([Element(0x42007F, Enumeration(item.status))]
                    + (Given(0x42007E, AsEnumeration(item.reason))
                       + (Given(0x42007D, AsText(item.message)) + Present(item.payload)))))))
  {
    var fs := ResponseItemFields(item);
    BatchIdTree(item.id);
    SixFields(fs);
  }

  /** A message is its header, followed by its items in order. */
  lemma RequestTree(r: Request)
    ensures var e := RequestElement(r);
            && e.tag == 0x420078 && e.value.Structure? && |e.value.items| == 1 + |r.items|
            && e.value.items[0] == RequestHeaderElement(r.header)
            && forall i :: 0 <= i < |r.items| ==> e.value.items[1 + i] == RequestItemElement(r.items[i])
  {
    AreBehind(RequestHeaderElement(r.header), RequestItemElements(r.items));
  }

  lemma ResponseTree(r: Response)
    ensures var e := ResponseElement(r);
            && e.tag == 0x42007B && e.value.Structure? && |e.value.items| == 1 + |r.items|
            && e.value.items[0] == ResponseHeaderElement(r.header)
            && forall i :: 0 <= i < |r.items| ==> e.value.items[1 + i] == ResponseItemElement(r.items[i])
  {
    AreBehind(ResponseHeaderElement(r.header), ResponseItemElements(r.items));
  }

  lemma AreBehind(first: Element, rest: seq<Element>)
    ensures forall i :: 0 <= i < |rest| ==> ([first] + rest)[1 + i] == rest[i]
  {
  }

  // ------------------------------------------------------------------ reading

  predicate HoldsEnumeration(e: Option<Element>, n: Option<int32>) {
    if n.Some? then e.Some? && e.value.value == Enumeration(n.value) else e.None?
  }

  predicate HoldsText(e: Option<Element>, t: Option<seq<byte>>) {
    if t.Some? then e.Some? && e.value.value == TextString(t.value) else e.None?
  }

  /** An id of one to four bytes, most significant first; any other is read as 0. */
  predicate HoldsId(e: Option<Element>, id: uint32) {
    if e.None? then id == 0
    else
      && (e.value.value.ByteString? || e.value.value.BigInteger?)
      && var b := if e.value.value.ByteString? then e.value.value.bytes else e.value.value.big;
         id == match |b|
               case 1 => b[0] as int
               case 2 => 0x100 * b[0] as int + b[1] as int
               case 3 => 0x1_0000 * b[0] as int + 0x100 * b[1] as int + b[2] as int
               case 4 => 0x100_0000 * b[0] as int + 0x1_0000 * b[1] as int + 0x100 * b[2] as int + b[3] as int
               case _ => 0
  }

  lemma IdExactly(e: Option<Element>, id: uint32)
    ensures IdFrom(e) == Ok(id) <==> HoldsId(e, id)
  {
    if e.Some? && (e.value.value.ByteString? || e.value.value.BigInteger?) {
      var b := if e.value.value.ByteString? then e.value.value.bytes else e.value.value.big;
      if 0 < |b| <= 4 {
        Accumulated(b);
      }
    }
  }

  lemma Accumulated(b: seq<byte>)
    requires 0 < |b| <= 4
    ensures FromBigEndian(b) ==
            match |b|
            case 1 => b[0] as int
            case 2 => 0x100 * b[0] as int + b[1] as int
            case 3 => 0x1_0000 * b[0] as int + 0x100 * b[1] as int + b[2] as int
            case _ => 0x100_0000 * b[0] as int + 0x1_0000 * b[1] as int + 0x100 * b[2] as int + b[3] as int
  {
    if |b| > 1 {
      Accumulated(b[..|b| - 1]);
    }
  }

  /** A response item is read exactly if it has a Result Status, a failure (status 1) has
      a reason, and no field is of another type than its own. */
  lemma ResponseItemExactly(e: Element, item: ResponseBatchItem)
    ensures ResponseItemFrom(e) == Ok(item) <==>
            && e.tag == 0x42000F && e.value.Structure? && HoldsId(GetChild(e, 0x420093), item.id)
            && (|| HoldsEnumeration(GetChild(e, 0x42005C), Some(item.operation))
                || (GetChild(e, 0x42005C).None? && item.operation == 0))
            && HoldsEnumeration(GetChild(e, 0x42007F), Some(item.status))
            && HoldsEnumeration(GetChild(e, 0x42007E), item.reason) && (item.status == 1 ==> item.reason.Some?)
            && HoldsText(GetChild(e, 0x42007D), item.message) && GetChild(e, 0x42007C) == item.payload
  {
    IdExactly(GetChild(e, 0x420093), item.id);
  }

  /** The children that are batch items. */
  function BatchItems(children: seq<Element>): (s: seq<Element>) {
    if children == [] then []
    else
      var last := children[|children| - 1];
      BatchItems(children[..|children| - 1]) + (if last.tag == 0x42000F then [last] else [])
  }

  predicate AreRead(elements: seq<Element>, items: seq<ResponseBatchItem>) {
    |elements| == |items| && forall i :: 0 <= i < |items| ==> ResponseItemFrom(elements[i]) == Ok(items[i])
  }

  lemma {:induction false} ItemsExactly(children: seq<Element>, items: seq<ResponseBatchItem>)
    ensures ItemsFrom(children, ResponseItemFrom) == Ok(items) <==> AreRead(BatchItems(children), items)
    decreases children
  {
    if children != [] {
      var init, last := children[..|children| - 1], children[|children| - 1];
      var before := ItemsFrom(init, ResponseItemFrom);
      ItemsExactly(init, items);
      if last.tag == 0x42000F {
        if items != [] {
          ItemsExactly(init, items[..|items| - 1]);
          assert items == items[..|items| - 1] + [items[|items| - 1]];
        }
        if before.Ok? {
          ItemsExactly(init, before.value);
        }
      }
    }
  }

  /** A response is read exactly if it has a header, nothing in it is of a type its
      version does not have, each batch item is read, in order, and there are no more of
      them, as a 32-bit number, than the header says. */
  lemma ResponseExactly(e: Element, r: Response)
    ensures ResponseFrom(e) == Ok(r) <==>
            && e.tag == 0x42007B && e.value.Structure? && GetChild(e, 0x42007A).Some?
            && ResponseHeaderFrom(GetChild(e, 0x42007A).value) == Ok(r.header) && VersionValid(e, r.header.version)
            && AreRead(BatchItems(e.value.items), r.items)
            && (|r.items| + 0x8000_0000) % 0x1_0000_0000 - 0x8000_0000 <= r.header.batchCount
  {
    if e.value.Structure? {
      ItemsExactly(e.value.items, r.items);
      var read := ItemsFrom(e.value.items, ResponseItemFrom);
      if read.Ok? {
        ItemsExactly(e.value.items, read.value);
      }
    }
  }
}
