/** TTLV elements and their wire form (KMIP 1.4 section 9.1).

    `Encode` says what the bytes of an element are, with no buffer, view or
    offset in sight; the printer and the parser in module TtlvCodec are both
    measured against it. */
module Ttlv {
  import opened Prelude
  import opened Buffers

  type Tag = t: int | 0 <= t < 0x100_0000

  /** A typed value; the wire type code is the constructor's. */
  datatype Value =
    | Structure(items: seq<Element>)
    | Integer(integer: int32)
    | LongInteger(long: int64)
    | BigInteger(big: seq<byte>)
    | Enumeration(enum: int32)
    | Boolean(flag: bool)
    | TextString(text: seq<byte>)
    | ByteString(bytes: seq<byte>)
    | DateTime(time: int64)
    | DateTimeExtended(micros: int64)
    | Interval(seconds: uint32)

  datatype Element = Element(tag: Tag, value: Value)

  const MAX_STRUCTURE_DEPTH: nat := 64

  const TYPE_STRUCTURE: byte := 0x01
  const TYPE_INTEGER: byte := 0x02
  const TYPE_LONG_INTEGER: byte := 0x03
  const TYPE_BIG_INTEGER: byte := 0x04
  const TYPE_ENUMERATION: byte := 0x05
  const TYPE_BOOLEAN: byte := 0x06
  const TYPE_TEXT_STRING: byte := 0x07
  const TYPE_BYTE_STRING: byte := 0x08
  const TYPE_DATE_TIME: byte := 0x09
  const TYPE_INTERVAL: byte := 0x0A
  const TYPE_DATE_TIME_EXTENDED: byte := 0x0B

  function TypeCode(v: Value): (t: byte)
    ensures t == TYPE_STRUCTURE <==> v.Structure?
  {
    match v
    case Structure(_) => TYPE_STRUCTURE
    case Integer(_) => TYPE_INTEGER
    case LongInteger(_) => TYPE_LONG_INTEGER
    case BigInteger(_) => TYPE_BIG_INTEGER
    case Enumeration(_) => TYPE_ENUMERATION
    case Boolean(_) => TYPE_BOOLEAN
    case TextString(_) => TYPE_TEXT_STRING
    case ByteString(_) => TYPE_BYTE_STRING
    case DateTime(_) => TYPE_DATE_TIME
    case DateTimeExtended(_) => TYPE_DATE_TIME_EXTENDED
    case Interval(_) => TYPE_INTERVAL
  }

  // ---------------------------------------------------------------- encoding

  /** Tag, type and length: the eight bytes in front of every value. */
  function Header(tag: Tag, typeCode: byte, length: nat): (h: seq<byte>)
    ensures |h| == 8
  {
    BigEndian(tag, 3) + [typeCode] + BigEndian(length, 4)
  }

  /** A payload between its header and its zero padding. */
  function Frame(tag: Tag, typeCode: byte, payload: seq<byte>): (s: seq<byte>)
    ensures |s| == 8 + |payload| + Padding(|payload|)
  {
    Header(tag, typeCode, |payload|) + payload + Zeros(Padding(|payload|))
  }

  /** The value's bytes, without padding. */
  ghost function Payload(v: Value): seq<byte>
    decreases v, 0
  {
    match v
    case Structure(items) => EncodeAll(items)
    case Integer(n) => BigEndian(Unsigned32(n), 4)
    case LongInteger(n) => BigEndian(Unsigned64(n), 8)
    case BigInteger(b) => b
    case Enumeration(n) => BigEndian(Unsigned32(n), 4)
    case Boolean(b) => BigEndian(if b then 1 else 0, 8)
    case TextString(b) => b
    case ByteString(b) => b
    case DateTime(n) => BigEndian(Unsigned64(n), 8)
    case DateTimeExtended(n) => BigEndian(Unsigned64(n), 8)
    case Interval(n) => BigEndian(n, 4)
  }

  ghost function Encode(e: Element): (s: seq<byte>)
    ensures |s| >= 8
    decreases e, 1
  {
    Frame(e.tag, TypeCode(e.value), Payload(e.value))
  }

  ghost function EncodeAll(items: seq<Element>): (s: seq<byte>)
    decreases items, 0
  {
    if items == [] then [] else Encode(items[0]) + EncodeAll(items[1..])
  }

  /** Every length in the tree fits the 32-bit length field. */
  ghost predicate Encodable(e: Element) {
    && |Payload(e.value)| < 0x1_0000_0000
    && (e.value.Structure? ==> forall c :: c in e.value.items ==> Encodable(c))
  }

  /** No more than `levels` structures are nested below the root. */
  predicate NestedWithin(e: Element, levels: int)
    decreases e
  {
    levels >= 0 && (e.value.Structure? ==> forall c :: c in e.value.items ==> NestedWithin(c, levels - 1))
  }

  // ------------------------------------------------------- lemmas on Encode

  lemma {:induction false} EncodeAllAppend(xs: seq<Element>, ys: seq<Element>)
    ensures EncodeAll(xs + ys) == EncodeAll(xs) + EncodeAll(ys)
  {
    if xs == [] {
      assert xs + ys == ys;
    } else {
      assert EncodeAll(xs + ys) == Encode(xs[0]) + EncodeAll(xs[1..] + ys) by {
        assert (xs + ys)[1..] == xs[1..] + ys;
      }
      EncodeAllAppend(xs[1..], ys);
      Associates(Encode(xs[0]), EncodeAll(xs[1..]), EncodeAll(ys));
    }
  }

  lemma Associates(a: seq<byte>, b: seq<byte>, c: seq<byte>)
    ensures a + (b + c) == (a + b) + c
  {
  }

  lemma EncodeAllSnoc(xs: seq<Element>, e: Element)
    ensures EncodeAll(xs + [e]) == EncodeAll(xs) + Encode(e)
  {
    EncodeAllAppend(xs, [e]);
    assert EncodeAll([e]) == Encode(e) + EncodeAll([]);
  }

  /** Every encoding is a whole number of eight-byte units, and a structure's
      payload needs no padding. */
  lemma EncodeAligned(e: Element)
    ensures |Encode(e)| % 8 == 0
  {
  }

  lemma AlignedSum(a: nat, b: nat)
    requires a % 8 == 0 && b % 8 == 0
    ensures (a + b) % 8 == 0
  {
  }

  lemma {:induction false} EncodeAllAligned(items: seq<Element>)
    ensures |EncodeAll(items)| % 8 == 0
  {
    if items != [] {
      EncodeAligned(items[0]);
      EncodeAllAligned(items[1..]);
      AlignedSum(|Encode(items[0])|, |EncodeAll(items[1..])|);
    }
  }

  /** Each child's encoding lies inside its parent's payload. */
  lemma {:induction false} ChildEncodingBound(items: seq<Element>, c: Element)
    requires c in items
    ensures |Encode(c)| <= |EncodeAll(items)|
  {
    if c != items[0] {
      ChildEncodingBound(items[1..], c);
    }
  }

  lemma ConcatCancel(a: seq<byte>, b: seq<byte>, x: seq<byte>, y: seq<byte>)
    requires a + x == b + y && |a| == |b|
    ensures a == b && x == y
  {
    assert a == (a + x)[..|a|];
    assert b == (b + y)[..|b|];
    assert x == (a + x)[|a|..];
    assert y == (b + y)[|b|..];
  }

  /** A header determines tag, type and (32-bit) length. */
  lemma HeaderInjective(t1: Tag, c1: byte, n1: nat, t2: Tag, c2: byte, n2: nat)
    requires n1 < 0x1_0000_0000 && n2 < 0x1_0000_0000
    requires Header(t1, c1, n1) == Header(t2, c2, n2)
    ensures t1 == t2 && c1 == c2 && n1 == n2
  {
    ConcatCancel(BigEndian(t1, 3) + [c1], BigEndian(t2, 3) + [c2], BigEndian(n1, 4), BigEndian(n2, 4));
    ConcatCancel(BigEndian(t1, 3), BigEndian(t2, 3), [c1], [c2]);
    Pow256Values();
    FromBigEndianBigEndian(t1, 3);
    FromBigEndianBigEndian(t2, 3);
    FromBigEndianBigEndian(n1, 4);
    FromBigEndianBigEndian(n2, 4);
  }

  /** The parts of an encoding, read off any bytes that start with it. */
  lemma EncodeParts(e: Element, rest: seq<byte>)
    ensures var s := Encode(e) + rest; var n := |Payload(e.value)|;
            && |s| >= 8 + n + Padding(n)
            && s[..8] == Header(e.tag, TypeCode(e.value), n)
            && s[8..8 + n] == Payload(e.value)
            && s[8 + n..8 + n + Padding(n)] == Zeros(Padding(n))
            && s[8 + n + Padding(n)..] == rest
  {
  }

  lemma FixedPayloadInjective(v: Value, w: Value)
    requires TypeCode(v) == TypeCode(w) && !v.Structure?
    requires Payload(v) == Payload(w)
    ensures v == w
  {
    Pow256Values();
    match v
    case Integer(n) =>
      FromBigEndianBigEndian(Unsigned32(n), 4); FromBigEndianBigEndian(Unsigned32(w.integer), 4);
    case LongInteger(n) =>
      FromBigEndianBigEndian(Unsigned64(n), 8); FromBigEndianBigEndian(Unsigned64(w.long), 8);
    case Enumeration(n) =>
      FromBigEndianBigEndian(Unsigned32(n), 4); FromBigEndianBigEndian(Unsigned32(w.enum), 4);
    case Boolean(b) =>
      FromBigEndianBigEndian(if b then 1 else 0, 8); FromBigEndianBigEndian(if w.flag then 1 else 0, 8);
    case DateTime(n) =>
      FromBigEndianBigEndian(Unsigned64(n), 8); FromBigEndianBigEndian(Unsigned64(w.time), 8);
    case DateTimeExtended(n) =>
      FromBigEndianBigEndian(Unsigned64(n), 8); FromBigEndianBigEndian(Unsigned64(w.micros), 8);
    case Interval(n) =>
      FromBigEndianBigEndian(n, 4); FromBigEndianBigEndian(w.seconds, 4);
    case BigInteger(_) =>
    case TextString(_) =>
    case ByteString(_) =>
  }

  /** No encoding is a proper prefix of another: bytes that start with an
      encoding start with exactly one, whatever follows. */
  lemma {:induction false} EncodePrefixFree(a: Element, b: Element, x: seq<byte>, y: seq<byte>)
    requires Encodable(a) && Encodable(b)
    requires Encode(a) + x == Encode(b) + y
    ensures a == b && x == y
    decreases a, 1
  {
    EncodeParts(a, x);
    EncodeParts(b, y);
    HeaderInjective(a.tag, TypeCode(a.value), |Payload(a.value)|, b.tag, TypeCode(b.value), |Payload(b.value)|);
    if a.value.Structure? {
      EncodeAllInjective(a.value.items, b.value.items);
    } else {
      FixedPayloadInjective(a.value, b.value);
    }
  }

  lemma {:induction false} EncodeAllInjective(xs: seq<Element>, ys: seq<Element>)
    requires forall c :: c in xs ==> Encodable(c)
    requires forall c :: c in ys ==> Encodable(c)
    requires EncodeAll(xs) == EncodeAll(ys)
    ensures xs == ys
    decreases xs, 0
  {
    if xs != [] && ys != [] {
      EncodePrefixFree(xs[0], ys[0], EncodeAll(xs[1..]), EncodeAll(ys[1..]));
      EncodeAllInjective(xs[1..], ys[1..]);
      assert xs == [xs[0]] + xs[1..] && ys == [ys[0]] + ys[1..];
    }
  }
}
