/** The bytes of an element, one by one (KMIP 1.4 section 9.1). `OnWire` weighs and
    compares single bytes; it shares nothing with `Encode`, the printer or the
    parser, all of which are measured against it here. */
module Wire {
  import opened Prelude
  import opened Buffers
  import opened Ttlv
  import opened TtlvCodec

  /** The Item Type of a value. */
  predicate HasItemType(v: Value, b: byte) {
    match v
    case Structure(_) => b == 0x01
    case Integer(_) => b == 0x02
    case LongInteger(_) => b == 0x03
    case BigInteger(_) => b == 0x04
    case Enumeration(_) => b == 0x05
    case Boolean(_) => b == 0x06
    case TextString(_) => b == 0x07
    case ByteString(_) => b == 0x08
    case DateTime(_) => b == 0x09
    case Interval(_) => b == 0x0A
    case DateTimeExtended(_) => b == 0x0B
  }

  /** Three, four and eight bytes from position `i` on, weighed by place. */
  function Weigh3(s: seq<byte>, i: nat): nat
    requires i + 3 <= |s|
  {
    65536 * s[i] as int + 256 * s[i + 1] as int + s[i + 2] as int
  }

  function Weigh4(s: seq<byte>, i: nat): nat
    requires i + 4 <= |s|
  {
    16777216 * s[i] as int + Weigh3(s, i + 1)
  }

  function Weigh8(s: seq<byte>, i: nat): nat
    requires i + 8 <= |s|
  {
    4294967296 * Weigh4(s, i) + Weigh4(s, i + 4)
  }

  predicate ZerosFrom(s: seq<byte>, i: nat) {
    forall k :: i <= k < |s| ==> s[k] == 0
  }

  /** The Item Length of a value that is no structure. */
  function ItemLength(v: Value): nat
    requires !v.Structure?
  {
    match v
    case Integer(_) => 4
    case Enumeration(_) => 4
    case Interval(_) => 4
    case LongInteger(_) => 8
    case Boolean(_) => 8
    case DateTime(_) => 8
    case DateTimeExtended(_) => 8
    case BigInteger(b) => |b|
    case TextString(b) => |b|
    case ByteString(b) => |b|
  }

  /** The Item Value: numbers in two's complement, strings as they are. */
  predicate HasItemValue(v: Value, s: seq<byte>)
    requires !v.Structure? && 8 + ItemLength(v) <= |s|
  {
    match v
    case Integer(n) => Weigh4(s, 8) == n % 4294967296
    case Enumeration(n) => Weigh4(s, 8) == n % 4294967296
    case Interval(n) => Weigh4(s, 8) == n
    case LongInteger(n) => Weigh8(s, 8) == n % 18446744073709551616
    case DateTime(n) => Weigh8(s, 8) == n % 18446744073709551616
    case DateTimeExtended(n) => Weigh8(s, 8) == n % 18446744073709551616
    case Boolean(b) => (forall k :: 8 <= k < 15 ==> s[k] == 0) && s[15] == if b then 1 else 0
    case BigInteger(b) => forall k :: 8 <= k < 8 + |b| ==> s[k] == b[k - 8]
    case TextString(b) => forall k :: 8 <= k < 8 + |b| ==> s[k] == b[k - 8]
    case ByteString(b) => forall k :: 8 <= k < 8 + |b| ==> s[k] == b[k - 8]
  }

  /** The elements stand one after the other, and fill the bytes. */
  ghost predicate AllOnWire(items: seq<Element>, s: seq<byte>)
    decreases items, 0
  {
    if items == [] then s == []
    else exists k :: 0 <= k <= |s| && OnWire(items[0], s[..k]) && AllOnWire(items[1..], s[k..])
  }

  /** The bytes are those of the element: tag, type and length in front, the value,
      and zeros up to a multiple of eight. */
  ghost predicate OnWire(e: Element, s: seq<byte>)
    decreases e, 1
  {
    && |s| >= 8 && |s| % 8 == 0 && Weigh3(s, 0) == e.tag && HasItemType(e.value, s[3])
    && if e.value.Structure? then
         Weigh4(s, 4) == |s| - 8 && AllOnWire(e.value.items, s[8..])
       else
         && Weigh4(s, 4) == ItemLength(e.value) && 8 + Weigh4(s, 4) <= |s| < 16 + Weigh4(s, 4)
         && HasItemValue(e.value, s) && ZerosFrom(s, 8 + Weigh4(s, 4))
  }

  // ------------------------------------------------------------- the numbers

  lemma BigEndianWeighs(n: nat, s: seq<byte>, i: nat)
    requires i + 4 <= |s| && n < 4294967296
    ensures s[i..i + 4] == BigEndian(n, 4) <==> Weigh4(s, i) == n
  {
    var t := s[i..i + 4];
    BigEndian4(t);
    Pow256Values();
    FromBigEndianBigEndian(n, 4);
    BigEndianFromBigEndian(t);
  }

  lemma BigEndianWeighs3(n: nat, s: seq<byte>, i: nat)
    requires i + 3 <= |s| && n < 16777216
    ensures s[i..i + 3] == BigEndian(n, 3) <==> Weigh3(s, i) == n
  {
    var t := s[i..i + 3];
    BigEndian3(t);
    Pow256Values();
    FromBigEndianBigEndian(n, 3);
    BigEndianFromBigEndian(t);
  }

  lemma BigEndianWeighs8(n: nat, s: seq<byte>, i: nat)
    requires i + 8 <= |s| && n < 18446744073709551616
    ensures s[i..i + 8] == BigEndian(n, 8) <==> Weigh8(s, i) == n
  {
    var t := s[i..i + 8];
    BigEndian8(t);
    BigEndian4(t[..4]);
    BigEndian4(t[4..]);
    Pow256Values();
    FromBigEndianBigEndian(n, 8);
    BigEndianFromBigEndian(t);
  }

  lemma TwosComplement(n: int)
    ensures -0x8000_0000 <= n < 0x8000_0000 ==> Unsigned32(n) == n % 4294967296
    ensures -0x8000_0000_0000_0000 <= n < 0x8000_0000_0000_0000 ==> Unsigned64(n) == n % 18446744073709551616
  {
  }

  // ------------------------------------------------------------- the element

  lemma HeadOnWire(tag: Tag, v: Value, n: nat, s: seq<byte>)
    requires |s| >= 8 && n < 4294967296
    ensures s[..8] == Header(tag, TypeCode(v), n) <==> Weigh3(s, 0) == tag && HasItemType(v, s[3]) && Weigh4(s, 4) == n
  {
    BigEndianWeighs3(tag, s, 0);
    BigEndianWeighs(n, s, 4);
    assert HasItemType(v, s[3]) <==> s[3] == TypeCode(v);
    HeadParts(BigEndian(tag, 3), TypeCode(v), BigEndian(n, 4), s);
  }

  lemma HeadParts(a: seq<byte>, t: byte, b: seq<byte>, s: seq<byte>)
    requires |s| >= 8 && |a| == 3 && |b| == 4
    ensures s[..8] == a + [t] + b <==> s[0..3] == a && s[3] == t && s[4..8] == b
  {
    var h := a + [t] + b;
    assert h[0..3] == a && h[3] == t && h[4..8] == b;
    assert s[..8] == s[0..3] + [s[3]] + s[4..8];
  }

  lemma BooleanOnWire(b: bool, s: seq<byte>)
    requires |s| >= 16
    ensures s[8..16] == BigEndian(if b then 1 else 0, 8) <==> HasItemValue(Boolean(b), s)
  {
    BigEndianWeighs8(if b then 1 else 0, s, 8);
  }

  lemma StringOnWire(b: seq<byte>, s: seq<byte>)
    requires 8 + |b| <= |s|
    ensures s[8..8 + |b|] == b <==> forall k :: 8 <= k < 8 + |b| ==> s[k] == b[k - 8]
  {
    var t := s[8..8 + |b|];
    assert forall k :: 8 <= k < 8 + |b| ==> s[k] == t[k - 8];
    if t != b {
      var k :| 0 <= k < |b| && t[k] != b[k];
      assert s[8 + k] != b[8 + k - 8];
    }
  }

  lemma ValueOnWire(v: Value, s: seq<byte>)
    requires !v.Structure? && 8 + ItemLength(v) <= |s|
    ensures |Payload(v)| == ItemLength(v)
    ensures s[8..8 + ItemLength(v)] == Payload(v) <==> HasItemValue(v, s)
  {
    match v
    case Integer(n) => TwosComplement(n); BigEndianWeighs(Unsigned32(n), s, 8);
    case Enumeration(n) => TwosComplement(n); BigEndianWeighs(Unsigned32(n), s, 8);
    case Interval(n) => BigEndianWeighs(n, s, 8);
    case LongInteger(n) => TwosComplement(n); BigEndianWeighs8(Unsigned64(n), s, 8);
    case DateTime(n) => TwosComplement(n); BigEndianWeighs8(Unsigned64(n), s, 8);
    case DateTimeExtended(n) => TwosComplement(n); BigEndianWeighs8(Unsigned64(n), s, 8);
    case Boolean(b) => BooleanOnWire(b, s);
    case BigInteger(b) => StringOnWire(b, s);
    case TextString(b) => StringOnWire(b, s);
    case ByteString(b) => StringOnWire(b, s);
  }

  /** A header, a payload and zeros, and nothing else. */
  lemma FrameParts(tag: Tag, t: byte, p: seq<byte>, s: seq<byte>)
    ensures s == Frame(tag, t, p) <==>
            && 8 + |p| <= |s| < 16 + |p| && |s| % 8 == 0
            && s[..8] == Header(tag, t, |p|) && s[8..8 + |p|] == p && ZerosFrom(s, 8 + |p|)
  {
    var f, n := Frame(tag, t, p), |p|;
    assert f[..8] == Header(tag, t, n) && f[8..8 + n] == p && f[8 + n..] == Zeros(Padding(n));
    FrameLength(n, |s|);
    if |s| == |f| {
      ZeroTail(s, 8 + n, Padding(n));
      Joined3(s, f, 8, 8 + n);
    }
  }

  lemma FrameLength(n: nat, m: nat)
    ensures m == 8 + n + Padding(n) <==> 8 + n <= m < 16 + n && m % 8 == 0
  {
  }

  lemma ZeroTail(s: seq<byte>, i: nat, n: nat)
    requires i + n == |s|
    ensures s[i..] == Zeros(n) <==> ZerosFrom(s, i)
  {
    var t := s[i..];
    assert forall k :: i <= k < |s| ==> s[k] == t[k - i];
    if ZerosFrom(s, i) {
      forall k | 0 <= k < n ensures t[k] == 0 {
        assert t[k] == s[i + k];
      }
    }
  }

  lemma Joined3(s: seq<byte>, f: seq<byte>, a: nat, b: nat)
    requires |s| == |f| && a <= b <= |s|
    ensures s == f <==> s[..a] == f[..a] && s[a..b] == f[a..b] && s[b..] == f[b..]
  {
    assert s == s[..a] + s[a..b] + s[b..] && f == f[..a] + f[a..b] + f[b..];
  }

  lemma LeafOnWire(e: Element, s: seq<byte>)
    requires !e.value.Structure?
    ensures OnWire(e, s) <==> Encodable(e) && s == Encode(e)
  {
    var p, v := Payload(e.value), e.value;
    FrameParts(e.tag, TypeCode(v), p, s);
    assert |p| == ItemLength(v);
    if 8 + |p| <= |s| {
      ValueOnWire(v, s);
      if |p| < 4294967296 {
        HeadOnWire(e.tag, v, |p|, s);
      }
    }
  }

  /** The bytes that are an element's are its encoding, and no others: `Encode` is
      right, byte by byte, for every element whose lengths have room. */
  lemma {:induction false} EncodeIsOnWire(e: Element, s: seq<byte>)
    ensures OnWire(e, s) <==> Encodable(e) && s == Encode(e)
    decreases e, 1
  {
    if e.value.Structure? {
      if |s| >= 8 {
        AllEncodedOnWire(e.value.items, s[8..]);
      }
      StructureOnWire(e, s);
    } else {
      LeafOnWire(e, s);
    }
  }

  lemma StructureOnWire(e: Element, s: seq<byte>)
    requires e.value.Structure?
    requires |s| >= 8 ==>
               (AllOnWire(e.value.items, s[8..]) <==>
                AllEncodable(e.value.items) && s[8..] == EncodeAll(e.value.items))
    ensures OnWire(e, s) <==> Encodable(e) && s == Encode(e)
  {
    EncodeAllAligned(e.value.items);
    FrameParts(e.tag, TypeCode(e.value), EncodeAll(e.value.items), s);
    if 8 <= |s| < 4294967304 {
      HeadOnWire(e.tag, e.value, |s| - 8, s);
    }
  }

  lemma {:induction false} AllEncodedOnWire(items: seq<Element>, s: seq<byte>)
    ensures AllOnWire(items, s) <==> AllEncodable(items) && s == EncodeAll(items)
    decreases items, 0
  {
    if items != [] {
      var x, rest := Encode(items[0]), items[1..];
      AllSplits(items);
      if AllOnWire(items, s) {
        var k :| 0 <= k <= |s| && OnWire(items[0], s[..k]) && AllOnWire(rest, s[k..]);
        EncodeIsOnWire(items[0], s[..k]);
        AllEncodedOnWire(rest, s[k..]);
        AllCut(items, s, k);
      }
      if AllEncodable(items) && s == EncodeAll(items) {
        AllCut(items, s, |x|);
        EncodeIsOnWire(items[0], s[..|x|]);
        AllEncodedOnWire(rest, s[|x|..]);
      }
    }
  }

  lemma AllCut(items: seq<Element>, s: seq<byte>, k: nat)
    requires items != [] && k <= |s|
    ensures s[..k] == Encode(items[0]) && s[k..] == EncodeAll(items[1..]) ==> s == EncodeAll(items)
    ensures s == EncodeAll(items) && k == |Encode(items[0])| ==>
              s[..k] == Encode(items[0]) && s[k..] == EncodeAll(items[1..])
  {
    assert s == s[..k] + s[k..];
  }

  ghost predicate AllEncodable(items: seq<Element>) {
    forall c :: c in items ==> Encodable(c)
  }

  lemma AllSplits(items: seq<Element>)
    requires items != []
    ensures AllEncodable(items) <==> Encodable(items[0]) && AllEncodable(items[1..])
  {
    assert items == [items[0]] + items[1..];
  }

  // ---------------------------------------------------- printer and parser

  /** What is printed is the element on the wire. */
  method Print(e: Element) returns (r: Result<seq<byte>>)
    ensures r.Ok? ==> OnWire(e, r.value) && |r.value| <= 67108864
    ensures r.Err? ==> forall s :: OnWire(e, s) ==> |s| > 67108864
  {
    r := ToBytes(e);
    if r.Ok? {
      FitsIsEncodable(e);
      EncodeIsOnWire(e, r.value);
    } else {
      forall s | OnWire(e, s) ensures |s| > 67108864 {
        EncodeIsOnWire(e, s);
      }
    }
  }

  lemma FitsIsEncodable(e: Element)
    requires |Encode(e)| <= DEFAULT_LIMIT
    ensures Encodable(e)
  {
    ghost var s := EncodePieces(e);
    PrintableIsEncodable(e);
  }

  /** No more than `levels` structures below the root, one in the other. */
  predicate Depth(e: Element, levels: int)
    decreases e
  {
    levels >= 0 && (e.value.Structure? ==> forall i :: 0 <= i < |e.value.items| ==> Depth(e.value.items[i], levels - 1))
  }

  lemma {:induction false} DepthIsNesting(e: Element, levels: int)
    ensures Depth(e, levels) <==> NestedWithin(e, levels)
  {
    if e.value.Structure? && levels >= 0 {
      var items := e.value.items;
      forall i | 0 <= i < |items| ensures Depth(items[i], levels - 1) <==> NestedWithin(items[i], levels - 1) {
        DepthIsNesting(items[i], levels - 1);
      }
      assert forall i :: 0 <= i < |items| ==> items[i] in items;
    }
  }

  /** What is parsed is what stands on the wire, between `start` and the offset
      returned, and nothing that stands there, up to 64 deep, is refused. */
  method Parse(data: seq<byte>, start: nat) returns (r: Result<Element>, offset: nat)
    ensures r.Ok? ==> start <= offset <= |data| && OnWire(r.value, data[start..offset]) && Depth(r.value, 64)
    ensures r.Err? ==> forall e, end :: start <= end <= |data| && OnWire(e, data[start..end]) ==> !Depth(e, 64)
  {
    r, offset := Deserialize(data, start);
    if r.Ok? {
      assert data[start..offset] == Encode(r.value);
      EncodeIsOnWire(r.value, data[start..offset]);
      DepthIsNesting(r.value, 64);
    } else {
      forall e, end | start <= end <= |data| && OnWire(e, data[start..end]) ensures !Depth(e, 64) {
        EncodeIsOnWire(e, data[start..end]);
        DepthIsNesting(e, 64);
        assert data[start..][..end - start] == data[start..end];
        assert !Accepts(data, start, 0, e);
      }
    }
  }
}
