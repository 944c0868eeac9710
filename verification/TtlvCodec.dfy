/** The TTLV printer and the depth-limited TTLV parser. */
module TtlvCodec {
  import opened Prelude
  import opened Buffers
  import opened Ttlv

  // ----------------------------------------------------------------- printer

  /** Bytes in the scratch buffer once one value has been printed into it:
      strings are padded there, every other value is not. */
  ghost function Content(v: Value): (s: seq<byte>)
    ensures Payload(v) <= s && |s| <= |Payload(v)| + Padding(|Payload(v)|)
  {
    var p := Payload(v);
    if v.TextString? || v.ByteString? then p + Zeros(Padding(|p|)) else p
  }

  /** A run of writeByte calls. */
  method WriteEach(data: seq<byte>, buf: SerializationBuffer) returns (r: Result<()>)
    requires buf.Valid()
    modifies buf
    ensures buf.Valid() && buf.Limit() == old(buf.Limit())
    ensures r.Ok? <==> old(buf.currentOffset) + |data| <= buf.Limit()
    ensures r.Ok? ==> buf.Contents() == old(buf.Contents()) + data
  {
    ghost var before := buf.Contents();
    assert before + data[..0] == before;
    for i := 0 to |data|
      invariant buf.Valid() && buf.Limit() == old(buf.Limit())
      invariant buf.Contents() == before + data[..i]
      invariant |before| + i <= buf.Limit()
    {
      r := buf.WriteByte(data[i]);
      if r.Err? {
        return;
      }
      assert before + data[..i] + [data[i]] == before + data[..i + 1];
    }
    assert data[..|data|] == data;
    return Ok(());
  }

  /** Prints the children of a structure one after the other. */
  method SerializeItems(items: seq<Element>, content: SerializationBuffer) returns (r: Result<()>)
    requires content.Valid() && content.Contents() == [] && content.Limit() == DEFAULT_LIMIT
    modifies content
    ensures r.Ok? <==> |EncodeAll(items)| <= DEFAULT_LIMIT
    ensures r.Ok? ==> content.Valid() && content.Contents() == EncodeAll(items)
    decreases items, 2
  {
    ghost var done: seq<byte> := [];
    for i := 0 to |items|
      invariant done == EncodeAll(items[..i])
      invariant content.Valid() && content.Contents() == done && content.Limit() == DEFAULT_LIMIT
      invariant |done| <= DEFAULT_LIMIT
    {
      ghost var next := NextItem(items, i);
      assert items[i] in items;
      r := Serialize(items[i], content);
      if r.Err? {
        return;
      }
      done := next;
    }
    assert items[..|items|] == items;
    return Ok(());
  }

  lemma NextItem(items: seq<Element>, i: nat) returns (next: seq<byte>)
    requires i < |items|
    ensures next == EncodeAll(items[..i + 1]) == EncodeAll(items[..i]) + Encode(items[i])
    ensures |next| <= |EncodeAll(items)|
    ensures |Content(items[i].value)| < |Encode(items[i])|
  {
    next := EncodeAll(items[..i + 1]);
    EncodeAllSnoc(items[..i], items[i]);
    assert items[..i] + [items[i]] == items[..i + 1];
    EncodeAllAppend(items[..i + 1], items[i + 1..]);
    assert items[..i + 1] + items[i + 1..] == items;
  }

  /** Prints one value into an empty scratch buffer. Returns the TTLV length,
      or fails exactly when the content outgrows a default buffer. */
  method SerializeValue(v: Value, content: SerializationBuffer) returns (r: Result<nat>)
    requires content.Valid() && content.Contents() == [] && content.Limit() == DEFAULT_LIMIT
    modifies content
    ensures r.Ok? <==> |Content(v)| <= DEFAULT_LIMIT
    ensures r.Ok? ==> content.Valid() && content.Contents() == Content(v) && r.value == |Payload(v)|
    decreases v, 0
  {
    var w: Result<()>;
    var length: nat;
    match v {
      case Structure(items) =>
        w := SerializeItems(items, content);
        length := content.currentOffset;
      case Integer(n) =>
        w := content.WriteBytes(BigEndian(Unsigned32(n), 4));
        length := 4;
      case LongInteger(n) =>
        w := content.WriteBytes(BigEndian(Unsigned64(n), 8));
        length := 8;
      case BigInteger(b) =>
        w := content.WriteBytes(b);
        length := |b|;
      case Enumeration(n) =>
        w := content.WriteBytes(BigEndian(Unsigned32(n), 4));
        length := 4;
      case Boolean(b) =>
        w := content.WriteBytes(BigEndian(if b then 1 else 0, 8));
        length := 8;
      case TextString(b) =>
        w := content.WritePadded(b);
        length := |b|;
      case ByteString(b) =>
        w := content.WritePadded(b);
        length := |b|;
      case DateTime(n) =>
        w := content.WriteBytes(BigEndian(Unsigned64(n), 8));
        length := 8;
      case DateTimeExtended(n) =>
        w := content.WriteBytes(BigEndian(Unsigned64(n), 8));
        length := 8;
      case Interval(n) =>
        w := content.WriteBytes(BigEndian(n, 4));
        length := 4;
    }
    if w.Err? {
      return Err(w.code);
    }
    return Ok(length);
  }

  /** Length field, content and final padding, as Serialize writes them. */
  method WriteBody(length: seq<byte>, body: seq<byte>, buf: SerializationBuffer) returns (r: Result<()>)
    requires buf.Valid()
    modifies buf
    ensures buf.Valid() && buf.Limit() == old(buf.Limit())
    ensures r.Ok? <==> old(buf.currentOffset) + |length| + |body| + Padding(8 + |body|) <= buf.Limit()
    ensures r.Ok? ==> buf.Contents() == old(buf.Contents()) + (length + body + Zeros(Padding(8 + |body|)))
  {
    ghost var before := buf.Contents();
    var padding := Padding(8 + |body|);
    r := WriteEach(length, buf);
    if r.Err? {
      return;
    }
    if |body| > 0 {
      r := buf.WriteBytes(body);
      if r.Err? {
        return;
      }
    }
    assert buf.Contents() == before + length + body;
    r := WriteEach(Zeros(padding), buf);
    assert before + length + body + Zeros(padding) == before + (length + body + Zeros(padding));
  }

  /** The pieces Serialize writes, in order, make up the encoding. */
  lemma EncodePieces(e: Element) returns (s: seq<byte>)
    ensures s == Encode(e)
    ensures var c := Content(e.value);
            s == (Be24(e.tag) + [TypeCode(e.value)]) + (Be32(|Payload(e.value)|) + c + Zeros(Padding(8 + |c|)))
  {
    s := Encode(e);
    var p, c := Payload(e.value), Content(e.value);
    assert Padding(8 + |c|) == Padding(|c|);
    if e.value.TextString? || e.value.ByteString? {
      assert Padding(|c|) == 0;
      assert c + Zeros(0) == p + Zeros(Padding(|p|));
    }
  }

  /** Appends the element's encoding, or fails. It fails exactly when a buffer
      cannot grow enough, so the 32-bit length field never truncates: a content
      of 2^32 bytes does not fit. */
  method Serialize(e: Element, buf: SerializationBuffer) returns (r: Result<()>)
    requires buf.Valid()
    modifies buf
    ensures buf.Valid() && buf.Limit() == old(buf.Limit())
    ensures r.Ok? <==> && |Content(e.value)| <= DEFAULT_LIMIT
                       && old(buf.currentOffset) + |Encode(e)| <= buf.Limit()
    ensures r.Ok? ==> buf.Contents() == old(buf.Contents()) + Encode(e)
    decreases e, 1
  {
    ghost var before := buf.Contents();
    ghost var s := EncodePieces(e);
    var head := Be24(e.tag) + [TypeCode(e.value)];
    r := WriteEach(head, buf);
    if r.Err? {
      return;
    }

    var content := new SerializationBuffer();
    DefaultLimit();
    var printed := SerializeValue(e.value, content);
    if printed.Err? {
      return Err(printed.code);
    }

    var body := content.buffer[..content.currentOffset];
    var length := Be32(printed.value);
    r := WriteBody(length, body, buf);
    Associates(before, head, length + body + Zeros(Padding(8 + |body|)));
  }

  // ------------------------------------------------------------------ parser

  /** `data` holds, from `offset` on, the encoding of `e`, whose structures do
      not nest past the depth limit. */
  ghost predicate Accepts(data: seq<byte>, offset: nat, depth: nat, e: Element) {
    && Encodable(e)
    && NestedWithin(e, MAX_STRUCTURE_DEPTH - depth)
    && offset <= |data|
    && Encode(e) <= data[offset..]
  }

  /** There is at most one such element: the grammar is unambiguous. */
  lemma AcceptsUnique(data: seq<byte>, offset: nat, d1: nat, d2: nat, a: Element, b: Element)
    requires Accepts(data, offset, d1, a) && Accepts(data, offset, d2, b)
    ensures a == b
  {
    var s := data[offset..];
    SamePrefix(a, b, s);
  }

  lemma SamePrefix(a: Element, b: Element, s: seq<byte>)
    requires Encodable(a) && Encodable(b) && Encode(a) <= s && Encode(b) <= s
    ensures a == b
  {
    var x, y := Encode(a), Encode(b);
    assert s == x + s[|x|..] && s == y + s[|y|..];
    EncodePrefixFree(a, b, s[|x|..], s[|y|..]);
  }

  method ValidateZeroPadding(data: seq<byte>, valueOffset: nat, valueLength: nat, paddedLength: nat)
    returns (r: Result<()>)
    requires valueLength <= paddedLength && valueOffset + paddedLength <= |data|
    ensures r.Ok? <==> data[valueOffset + valueLength..valueOffset + paddedLength] == Zeros(paddedLength - valueLength)
  {
    for i := valueOffset + valueLength to valueOffset + paddedLength
      invariant forall j :: valueOffset + valueLength <= j < i ==> data[j] == 0
    {
      if data[i] != 0 {
        assert data[valueOffset + valueLength..valueOffset + paddedLength][i - valueOffset - valueLength] != 0;
        return Err(GENERAL_FAILURE);
      }
    }
    return Ok(());
  }

  /** A value of the given type whose payload is these bytes, if there is one. */
  function ReadValue(data: seq<byte>, offset: nat, length: nat, typeCode: byte): (r: Result<Value>)
    requires offset + length <= |data|
    ensures r.Ok? ==> !r.value.Structure? && TypeCode(r.value) == typeCode
    ensures r.Ok? ==> Payload(r.value) == data[offset..offset + length]
  {
    if typeCode == TYPE_INTEGER || typeCode == TYPE_ENUMERATION || typeCode == TYPE_INTERVAL then
      if length != 4 then Err(GENERAL_FAILURE) else Ok(ReadFour(data, offset, typeCode))
    else if typeCode == TYPE_TEXT_STRING then Ok(TextString(data[offset..offset + length]))
    else if typeCode == TYPE_BYTE_STRING then Ok(ByteString(data[offset..offset + length]))
    else if typeCode == TYPE_BIG_INTEGER then Ok(BigInteger(data[offset..offset + length]))
    else if length != 8 then Err(GENERAL_FAILURE)
    else ReadEight(data, offset, typeCode)
  }

  function ReadFour(data: seq<byte>, offset: nat, typeCode: byte): (v: Value)
    requires offset + 4 <= |data|
    requires typeCode == TYPE_INTEGER || typeCode == TYPE_ENUMERATION || typeCode == TYPE_INTERVAL
    ensures !v.Structure? && TypeCode(v) == typeCode && Payload(v) == data[offset..offset + 4]
  {
    Read32(data, offset);
    var raw := ReadBe32(data, offset);
    if typeCode == TYPE_INTEGER then Integer(Signed32(raw))
    else if typeCode == TYPE_ENUMERATION then Enumeration(Signed32(raw))
    else Interval(raw)
  }

  /** Numbers and times of 64 bits; a Boolean is 0 or 1; no other type is known. */
  function ReadEight(data: seq<byte>, offset: nat, typeCode: byte): (r: Result<Value>)
    requires offset + 8 <= |data|
    ensures r.Ok? ==> !r.value.Structure? && TypeCode(r.value) == typeCode
    ensures r.Ok? ==> Payload(r.value) == data[offset..offset + 8]
  {
    Read64(data, offset);
    var raw := ReadBe64(data, offset);
    if typeCode == TYPE_LONG_INTEGER then Ok(LongInteger(Signed64(raw)))
    else if typeCode == TYPE_DATE_TIME then Ok(DateTime(Signed64(raw)))
    else if typeCode == TYPE_DATE_TIME_EXTENDED then Ok(DateTimeExtended(Signed64(raw)))
    else if typeCode == TYPE_BOOLEAN && (raw == 0 || raw == 1) then Ok(Boolean(raw == 1))
    else Err(GENERAL_FAILURE)
  }

  lemma Read32(data: seq<byte>, offset: nat)
    requires offset + 4 <= |data|
    ensures BigEndian(ReadBe32(data, offset), 4) == data[offset..offset + 4]
  {
    BigEndianFromBigEndian(data[offset..offset + 4]);
  }

  lemma Read64(data: seq<byte>, offset: nat)
    requires offset + 8 <= |data|
    ensures BigEndian(ReadBe64(data, offset), 8) == data[offset..offset + 8]
    ensures Unsigned64(Signed64(ReadBe64(data, offset))) == ReadBe64(data, offset)
  {
    BigEndianFromBigEndian(data[offset..offset + 8]);
  }

  /** ReadValue turns down only what no value of the type could have printed. */
  lemma ReadValueComplete(data: seq<byte>, offset: nat, length: nat, v: Value)
    requires offset + length <= |data| && !v.Structure?
    requires Payload(v) == data[offset..offset + length]
    ensures ReadValue(data, offset, length, TypeCode(v)) == Ok(v)
  {
    var r := ReadValue(data, offset, length, TypeCode(v));
    if v.Boolean? {
      Pow256Values();
      FromBigEndianBigEndian(if v.flag then 1 else 0, 8);
    }
    assert r.Ok?;
    FixedPayloadInjective(v, r.value);
  }

  /** What the header at `offset` says about any element encoded there. */
  lemma HeaderOf(data: seq<byte>, offset: nat, e: Element)
    requires Encodable(e) && offset <= |data| && Encode(e) <= data[offset..]
    ensures var n := |Payload(e.value)|;
            && offset + 8 + n + Padding(n) <= |data|
            && ReadBe24(data, offset) == e.tag
            && data[offset + 3] == TypeCode(e.value)
            && ReadBe32(data, offset + 4) == n
            && data[offset + 8..offset + 8 + n] == Payload(e.value)
            && data[offset + 8 + n..offset + 8 + n + Padding(n)] == Zeros(Padding(n))
  {
    var s, n := data[offset..], |Payload(e.value)|;
    assert s == Encode(e) + s[|Encode(e)|..];
    EncodeParts(e, s[|Encode(e)|..]);
    assert data[offset..offset + 3] == s[..8][..3] == BigEndian(e.tag, 3);
    assert data[offset + 4..offset + 8] == s[..8][4..] == BigEndian(n, 4);
    Pow256Values();
    FromBigEndianBigEndian(e.tag, 3);
    FromBigEndianBigEndian(n, 4);
  }

  /** Conversely, a header, a payload and zero padding are an encoding. */
  lemma EncodingAt(data: seq<byte>, offset: nat, e: Element)
    requires var n := |Payload(e.value)|;
             && n < 0x1_0000_0000
             && offset + 8 + n + Padding(n) <= |data|
             && ReadBe24(data, offset) == e.tag
             && data[offset + 3] == TypeCode(e.value)
             && ReadBe32(data, offset + 4) == n
             && data[offset + 8..offset + 8 + n] == Payload(e.value)
             && data[offset + 8 + n..offset + 8 + n + Padding(n)] == Zeros(Padding(n))
    ensures offset + |Encode(e)| <= |data| && Encode(e) <= data[offset..]
  {
    var n := |Payload(e.value)|;
    var h, p, z := data[offset..offset + 8], data[offset + 8..offset + 8 + n],
                   data[offset + 8 + n..offset + 8 + n + Padding(n)];
    assert h == Header(e.tag, TypeCode(e.value), n) by {
      BigEndianFromBigEndian(data[offset..offset + 3]);
      BigEndianFromBigEndian(data[offset + 4..offset + 8]);
      assert h == data[offset..offset + 3] + [data[offset + 3]] + data[offset + 4..offset + 8];
    }
    assert Encode(e) == h + p + z;
    assert data[offset..offset + 8 + n + Padding(n)] == h + p + z;
  }

  /** Every encoding has a header. */
  lemma ShortHeader(data: seq<byte>, start: nat)
    requires start + 8 > |data|
    ensures start <= |data| ==> forall e :: !(Encode(e) <= data[start..])
  {
  }

  /** Parses the one element that starts at `offset`. The parser accepts exactly
      the encodings of elements nested within the limit, nothing else: on success
      the bytes consumed are the element's encoding, and it fails only when the
      bytes start with no such encoding at all. */
  method DeserializeImpl(data: seq<byte>, start: nat, depth: nat) returns (r: Result<Element>, offset: nat)
    ensures r.Ok? ==> Accepts(data, start, depth, r.value) && offset == start + |Encode(r.value)| <= |data|
    ensures r.Err? ==> forall e :: !Accepts(data, start, depth, e)
    decreases if depth > MAX_STRUCTURE_DEPTH then 0 else 1 + MAX_STRUCTURE_DEPTH - depth, 1
  {
    offset := start;
    if depth > MAX_STRUCTURE_DEPTH {
      return Err(GENERAL_FAILURE), offset;
    }
    if offset + 8 > |data| {
      ShortHeader(data, start);
      return Err(GENERAL_FAILURE), offset;
    }
    var tag := ReadBe24(data, offset);
    var typeCode := data[offset + 3];
    var length := ReadBe32(data, offset + 4);
    offset := offset + 8;
    var paddedLength: nat := length;
    if length % 8 != 0 && typeCode != TYPE_STRUCTURE {
      paddedLength := paddedLength + (8 - length % 8);
    }
    if typeCode == TYPE_STRUCTURE {
      var items;
      items, offset := DeserializeItems(data, start, length, depth);
      if items.Err? {
        return Err(items.code), offset;
      }
      r := Ok(Element(tag, Structure(items.value)));
      EncodeAllAligned(items.value);
      EncodingAt(data, start, r.value);
    } else {
      var value;
      value, offset := DeserializeValue(data, start, length, paddedLength);
      if value.Err? {
        return Err(value.code), offset;
      }
      r := Ok(Element(tag, value.value));
      EncodingAt(data, start, r.value);
    }
  }

  /** The primitive branch: the value, then its zero padding. */
  method DeserializeValue(data: seq<byte>, start: nat, length: nat, paddedLength: nat)
    returns (r: Result<Value>, offset: nat)
    requires start + 8 <= |data| && data[start + 3] != TYPE_STRUCTURE
    requires length == ReadBe32(data, start + 4) && paddedLength == length + Padding(length)
    ensures r.Ok? ==> && TypeCode(r.value) == data[start + 3] && offset == start + 8 + paddedLength <= |data|
                      && Payload(r.value) == data[start + 8..start + 8 + length]
                      && data[start + 8 + length..offset] == Zeros(paddedLength - length)
    ensures r.Err? ==> forall e :: Encodable(e) ==> !(Encode(e) <= data[start..])
  {
    offset := start + 8;
    forall e | Encodable(e) && Encode(e) <= data[start..]
      ensures offset + paddedLength <= |data| && ReadValue(data, offset, length, data[start + 3]) == Ok(e.value)
      ensures data[offset + length..offset + paddedLength] == Zeros(paddedLength - length)
    {
      HeaderOf(data, start, e);
      ReadValueComplete(data, offset, length, e.value);
    }
    if offset + paddedLength > |data| {
      return Err(GENERAL_FAILURE), offset;
    }
    r := ReadValue(data, offset, length, data[start + 3]);
    if r.Err? {
      return;
    }
    var zero := ValidateZeroPadding(data, offset, length, paddedLength);
    if zero.Err? {
      return Err(zero.code), offset;
    }
    offset := offset + paddedLength;
  }

  /** The structure branch: children, read through a view that ends where the
      declared length ends, must fill that length exactly. */
  method DeserializeItems(data: seq<byte>, start: nat, length: nat, depth: nat)
    returns (r: Result<seq<Element>>, offset: nat)
    requires depth <= MAX_STRUCTURE_DEPTH
    requires start + 8 <= |data| && data[start + 3] == TYPE_STRUCTURE && length == ReadBe32(data, start + 4)
    ensures r.Ok? ==> && offset == start + 8 + length <= |data|
                      && EncodeAll(r.value) == data[start + 8..offset]
                      && forall c :: c in r.value ==> Encodable(c) && NestedWithin(c, MAX_STRUCTURE_DEPTH - depth - 1)
    ensures r.Err? ==> forall e :: !Accepts(data, start, depth, e)
    decreases 1 + MAX_STRUCTURE_DEPTH - depth, 0
  {
    offset := start + 8;
    StructureFits(data, start, depth);
    if offset + length > |data| {
      return Err(GENERAL_FAILURE), offset;
    }
    var view := data[..offset + length];
    var items: seq<Element> := [];
    var current := 0;
    while current < length
      invariant current <= length && offset == start + 8 + current
      invariant EncodeAll(items) == data[start + 8..offset]
      invariant forall c :: c in items ==> Encodable(c) && NestedWithin(c, MAX_STRUCTURE_DEPTH - depth - 1)
      decreases length - current
    {
      var child, itemOffset := DeserializeImpl(view, offset, depth + 1);
      if child.Err? {
        NoChildNoStructure(data, start, depth, items, offset, view, depth + 1);
        return Err(child.code), offset;
      }
      ChildAppended(data[start + 8..], items, child.value, current);
      items := items + [child.value];
      current := current + (itemOffset - offset);
      offset := itemOffset;
    }
    r := Ok(items);
  }

  /** Children read so far, followed by one more. */
  lemma ChildAppended(body: seq<byte>, items: seq<Element>, c: Element, current: nat)
    requires current <= |body| && EncodeAll(items) == body[..current] && Encode(c) <= body[current..]
    ensures EncodeAll(items + [c]) == body[..current + |Encode(c)|]
  {
    EncodeAllSnoc(items, c);
  }

  /** An element encoded under a structure header is a structure that fits. */
  lemma StructureFits(data: seq<byte>, start: nat, depth: nat)
    requires start + 8 <= |data| && data[start + 3] == TYPE_STRUCTURE
    ensures forall e :: Accepts(data, start, depth, e) ==> start + 8 + ReadBe32(data, start + 4) <= |data|
  {
    forall e | Accepts(data, start, depth, e) ensures start + 8 + ReadBe32(data, start + 4) <= |data| {
      HeaderOf(data, start, e);
    }
  }

  /** If the children up to `offset` have been read, short of the end, and no
      child is encoded at `offset`, then no structure is encoded at `start`. */
  lemma NoChildNoStructure(data: seq<byte>, start: nat, depth: nat, items: seq<Element>, offset: nat, view: seq<byte>,
                           deeper: nat)
    requires start + 8 <= |data| && data[start + 3] == TYPE_STRUCTURE && deeper == depth + 1
    requires start + 8 <= offset < start + 8 + ReadBe32(data, start + 4) <= |data|
    requires forall c :: c in items ==> Encodable(c)
    requires EncodeAll(items) == data[start + 8..offset]
    requires view == data[..start + 8 + ReadBe32(data, start + 4)]
    requires forall c :: !Accepts(view, offset, deeper, c)
    ensures forall e :: !Accepts(data, start, depth, e)
  {
    forall e | Accepts(data, start, depth, e) ensures false {
      HeaderOf(data, start, e);
      var c := ChildAccepted(data, start, e, items, offset, deeper);
    }
  }

  /** The child that comes next in a structure read up to `offset`. */
  lemma ChildAccepted(data: seq<byte>, start: nat, e: Element, items: seq<Element>, offset: nat, deeper: nat)
    returns (c: Element)
    requires deeper > 0 && Accepts(data, start, deeper - 1, e) && e.value.Structure?
    requires start + 8 <= offset < start + 8 + |Payload(e.value)| <= |data|
    requires forall x :: x in items ==> Encodable(x)
    requires EncodeAll(items) == data[start + 8..offset]
    ensures Accepts(data[..start + 8 + |Payload(e.value)|], offset, deeper, c)
  {
    var end := start + 8 + |Payload(e.value)|;
    var body := data[start + 8..end];
    assert body == EncodeAll(e.value.items) by {
      HeaderOf(data, start, e);
    }
    Within(data, start + 8, offset, end);
    NextChild(body, items, e.value.items);
    c := e.value.items[|items|];
    ChildFits(e, c, deeper);
  }

  lemma ChildFits(e: Element, c: Element, deeper: nat)
    requires deeper > 0 && Encodable(e) && NestedWithin(e, MAX_STRUCTURE_DEPTH - (deeper - 1))
    requires e.value.Structure? && c in e.value.items
    ensures Encodable(c) && NestedWithin(c, MAX_STRUCTURE_DEPTH - deeper)
  {
  }

  lemma Within(data: seq<byte>, a: nat, b: nat, c: nat)
    requires a <= b <= c <= |data|
    ensures data[a..b] == data[a..c][..b - a] && data[..c][b..] == data[a..c][b - a..]
  {
  }

  /** If `body` encodes `all` and starts with the encoding of `done`, then `done`
      is how `all` begins, and the next child's encoding comes next. */
  lemma {:induction false} NextChild(body: seq<byte>, done: seq<Element>, all: seq<Element>)
    requires forall c :: c in done ==> Encodable(c)
    requires forall c :: c in all ==> Encodable(c)
    requires EncodeAll(all) == body && EncodeAll(done) <= body && |EncodeAll(done)| < |body|
    ensures |done| < |all| && done == all[..|done|]
    ensures Encode(all[|done|]) <= body[|EncodeAll(done)|..]
  {
    if done != [] {
      var x, rest, tail := Encode(done[0]), EncodeAll(done[1..]), EncodeAll(all[1..]);
      assert body == x + body[|x|..];
      EncodePrefixFree(done[0], all[0], body[|x|..], tail);
      assert EncodeAll(done)[|x|..] == rest;
      NextChild(tail, done[1..], all[1..]);
      assert body[|EncodeAll(done)|..] == tail[|rest|..];
      assert all[|done|] == all[1..][|done| - 1];
    }
  }

  // ----------------------------------------------------------- both together

  /** The element encoded at `offset`, if there is one. */
  ghost function Decode(data: seq<byte>, offset: nat): (r: Option<Element>)
    ensures r.Some? ==> Accepts(data, offset, 0, r.value)
    ensures r.None? ==> forall e :: !Accepts(data, offset, 0, e)
  {
    if e :| Accepts(data, offset, 0, e) then Some(e) else None
  }

  method Deserialize(data: seq<byte>, start: nat) returns (r: Result<Element>, offset: nat)
    ensures r.Ok? <==> Decode(data, start).Some?
    ensures r.Ok? ==> Decode(data, start) == Some(r.value) && offset == start + |Encode(r.value)| <= |data|
  {
    r, offset := DeserializeImpl(data, start, 0);
    if r.Ok? {
      AcceptsUnique(data, start, 0, 0, r.value, Decode(data, start).value);
    }
  }

  /** Whatever Serialize can print has lengths that fit their field. */
  lemma {:induction false} PrintableIsEncodable(e: Element)
    requires |Content(e.value)| <= DEFAULT_LIMIT
    ensures Encodable(e)
  {
    if e.value.Structure? {
      forall c | c in e.value.items ensures Encodable(c) {
        ChildEncodingBound(e.value.items, c);
        PrintableIsEncodable(c);
      }
    }
  }

  /** Parsing undoes printing, wherever the encoding stands, exactly for the
      trees nested within the limit; deeper ones are printed but not read back. */
  lemma RoundTrip(e: Element, before: seq<byte>, after: seq<byte>)
    requires |Content(e.value)| <= DEFAULT_LIMIT
    ensures Decode(before + Encode(e) + after, |before|) == Some(e) <==> NestedWithin(e, MAX_STRUCTURE_DEPTH)
    ensures Decode(before + Encode(e) + after, |before|).Some? ==> NestedWithin(e, MAX_STRUCTURE_DEPTH)
  {
    PrintableIsEncodable(e);
    var data := before + Encode(e) + after;
    assert data[|before|..] == Encode(e) + after;
    if NestedWithin(e, MAX_STRUCTURE_DEPTH) {
      assert Accepts(data, |before|, 0, e);
      AcceptsUnique(data, |before|, 0, 0, e, Decode(data, |before|).value);
    } else if Decode(data, |before|).Some? {
      var d := Decode(data, |before|).value;
      EncodePrefixFree(e, d, after, data[|before|..][|Encode(d)|..]);
    }
  }

  /** Serializes into a fresh default buffer and hands the bytes out. */
  method ToBytes(e: Element) returns (r: Result<seq<byte>>)
    ensures r.Ok? <==> |Encode(e)| <= DEFAULT_LIMIT
    ensures r.Ok? ==> r.value == Encode(e)
    ensures r.Ok? && NestedWithin(e, MAX_STRUCTURE_DEPTH) ==> Decode(r.value, 0) == Some(e)
  {
    DefaultLimit();
    var buf := new SerializationBuffer();
    ghost var s := EncodePieces(e);
    var w := Serialize(e, buf);
    if w.Err? {
      return Err(w.code);
    }
    RoundTrip(e, [], []);
    assert [] + Encode(e) + [] == Encode(e) == [] + Encode(e);
    var bytes := buf.Release();
    return Ok(bytes);
  }

  /** Printing undoes parsing: what the parser accepts, the printer prints again,
      byte for byte, as far as its buffer goes. */
  method Reprint(data: seq<byte>, start: nat) returns (r: Result<seq<byte>>, offset: nat)
    ensures Decode(data, start).None? ==> r.Err?
    ensures Decode(data, start).Some? ==>
              && start <= offset <= |data| && NestedWithin(Decode(data, start).value, MAX_STRUCTURE_DEPTH)
              && (r.Ok? <==> offset - start <= DEFAULT_LIMIT)
              && (r.Ok? ==> r.value == data[start..offset])
  {
    var e;
    e, offset := Deserialize(data, start);
    if e.Err? {
      return Err(e.code), offset;
    }
    assert data[start..][..offset - start] == data[start..offset];
    r := ToBytes(e.value);
  }

  // --------------------------------------------------------------- deep trees

  /** `n` structures below a structure, one inside the other. */
  function Nest(tag: Tag, n: nat): Element {
    Element(tag, Structure(if n == 0 then [] else [Nest(tag, n - 1)]))
  }

  lemma {:induction false} NestIsDeep(tag: Tag, n: nat, levels: nat)
    ensures |Encode(Nest(tag, n))| == 8 * n + 8
    ensures NestedWithin(Nest(tag, n), levels) <==> n <= levels
  {
    var e := Nest(tag, n);
    if n > 0 {
      NestIsDeep(tag, n - 1, if levels > 0 then levels - 1 else 0);
      assert e.value.items[1..] == [];
      assert EncodeAll(e.value.items) == Encode(e.value.items[0]) + EncodeAll([]);
      assert e.value.items[0] in e.value.items;
    }
    assert |Payload(e.value)| == 8 * n;
    assert Padding(8 * n) == 0;
  }

  /** The depth limit bites: trees deeper than 64, of 8 bytes a level, are printed
      and their bytes are not read back. */
  method DeepTree(tag: Tag, n: nat) returns (r: Result<seq<byte>>)
    requires MAX_STRUCTURE_DEPTH < n && 8 * n + 8 <= DEFAULT_LIMIT
    ensures r.Ok? && r.value == Encode(Nest(tag, n)) && Decode(r.value, 0).None?
  {
    var e := Nest(tag, n);
    NestIsDeep(tag, n, MAX_STRUCTURE_DEPTH);
    r := ToBytes(e);
    RoundTrip(e, [], []);
    assert [] + Encode(e) + [] == Encode(e);
  }
}
