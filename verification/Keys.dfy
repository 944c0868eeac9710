/** The Register payload of a key, and the parser of a Get response: what one
    writes the other reads. */
module Keys {
  import opened Prelude
  import opened Ttlv
  import opened Elements
  import opened Protocol

  const NOT_IMPLEMENTED := -1
  const ENUM_UNSUPPORTED := -10
  const INVALID_ENCODING := -19
  const INVALID_FIELD := -20

  const OBJTYPE_CERTIFICATE: int32 := 1
  const OBJTYPE_SYMMETRIC_KEY: int32 := 2
  const OBJTYPE_PUBLIC_KEY: int32 := 3
  const OBJTYPE_PRIVATE_KEY: int32 := 4

  const FORMAT_RAW: int32 := 1
  const FORMAT_PKCS8: int32 := 4
  const FORMAT_X509: int32 := 5

  const ALG_UNSET: int32 := 0
  const ALG_TWOFISH: int32 := 0x19
  const ALG_EC: int32 := 0x1A
  const ALG_ONE_TIME_PAD: int32 := 0x1B
  const ALG_SHAKE_256: int32 := 0x28
  const ALG_ED448: int32 := 0x38
  const INT32_MAX: int32 := 0x7FFF_FFFF

  type Bytes = seq<byte>

  datatype KeyType = Unset | SymmetricKey | PrivateKey | PublicKey | Certificate

  /** A key: its material, its format if known, its algorithm and its length. */
  datatype Key = Key(
    keyType: KeyType,
    value: Bytes,
    format: Option<int32>,
    algorithm: int32,
    length: Option<int32>)

  /** What else Register sends; `generic` are the other attributes, as texts. */
  datatype Extras = Extras(name: Bytes, group: Bytes, usageMask: int32, generic: seq<(Bytes, Bytes)>)

  datatype Pair = Pair(algorithm: int32, length: int32)

  // ---------------------------------------------------------------- Register

  /** The last Cryptographic Algorithm a protocol version defines. */
  function LastAlgorithm(version: ProtocolVersion): int32 {
    if version.IsAtLeast(2, 0) then INT32_MAX
    else if version.IsAtLeast(1, 4) then ALG_SHAKE_256
    else if version.IsAtLeast(1, 3) then ALG_ONE_TIME_PAD
    else if version.IsAtLeast(1, 2) then ALG_EC
    else ALG_TWOFISH
  }

  /** The length to send: the one set, or that of the bytes of a symmetric key. */
  function LengthToSend(key: Key): Option<int32> {
    if key.length.None? && key.keyType.SymmetricKey? && |key.value| <= INT32_MAX / 8 then Some(|key.value| * 8)
    else key.length
  }

  /** The version is 1.`minor` or later. */
  predicate From1(version: ProtocolVersion, minor: int32) {
    version.major > 1 || (version.major == 1 && version.minor >= minor)
  }

  /** The version defines the algorithm: up to Twofish (0x19) from the start, EC (0x1A)
      from 1.2 on, One Time Pad (0x1B) from 1.3, SHAKE-256 (0x28) from 1.4, any from
      2.0. Extensions are negative as an int32. */
  predicate DefinedIn(algorithm: int32, version: ProtocolVersion) {
    || algorithm <= 0x19 || (algorithm == 0x1A && From1(version, 2)) || (algorithm == 0x1B && From1(version, 3))
    || (algorithm <= 0x28 && From1(version, 4)) || version.major > 2 || (version.major == 2 && version.minor >= 0)
  }

  /** The algorithm and the length to send: both, or neither if the version does
      not define the one or the other is not positive. The length is the one set, or
      for a symmetric key eight bits for each of its bytes. */
  function AlgorithmAndLength(key: Key, version: ProtocolVersion): (pair: Option<Pair>)
    ensures pair.Some? <==>
            && key.algorithm != 0 && DefinedIn(key.algorithm, version)
            && if key.length.Some? then key.length.value > 0
               else key.keyType.SymmetricKey? && 0 < |key.value| <= 0x0FFF_FFFF
    ensures pair.Some? ==>
              pair.value == Pair(key.algorithm, if key.length.Some? then key.length.value else 8 * |key.value|)
  {
    if key.algorithm == ALG_UNSET || key.algorithm > LastAlgorithm(version) then None
    else
      var length := LengthToSend(key);
      if length.None? || length.value <= 0 then None else Some(Pair(key.algorithm, length.value))
  }

  const KEY_BLOCK_TAGS: seq<Tag> :=
    [TAG_KEY_FORMAT_TYPE, TAG_KEY_VALUE, TAG_CRYPTOGRAPHIC_ALGORITHM, TAG_CRYPTOGRAPHIC_LENGTH]

  function AlgorithmField(pair: Option<Pair>): Option<Element> {
    if pair.Some? then Some(Element(TAG_CRYPTOGRAPHIC_ALGORITHM, Enumeration(pair.value.algorithm))) else None
  }

  function LengthField(pair: Option<Pair>): Option<Element> {
    if pair.Some? then Some(Element(TAG_CRYPTOGRAPHIC_LENGTH, Integer(pair.value.length))) else None
  }

  function KeyValueElement(value: Bytes): Element {
    Element(TAG_KEY_VALUE, Structure([Element(TAG_KEY_MATERIAL, ByteString(value))]))
  }

  function KeyBlockFields(format: int32, value: Bytes, pair: Option<Pair>): seq<Option<Element>> {
    [Some(Element(TAG_KEY_FORMAT_TYPE, Enumeration(format))),
     Some(KeyValueElement(value)),
     AlgorithmField(pair),
     LengthField(pair)]
  }

  function KeyBlock(format: int32, value: Bytes, pair: Option<Pair>): Element {
    Element(TAG_KEY_BLOCK, Structure(Fields(KeyBlockFields(format, value, pair))))
  }

  function DefaultFormat(t: KeyType): int32 {
    match t
    case PrivateKey => FORMAT_PKCS8
    case PublicKey => FORMAT_X509
    case _ => FORMAT_RAW
  }

  /** The key's own format when it is known, else the default of its type. */
  function SentFormat(key: Key): int32 {
    if key.format.Some? then key.format.value else DefaultFormat(key.keyType)
  }

  function ObjectTag(t: KeyType): Tag {
    match t
    case PrivateKey => TAG_PRIVATE_KEY
    case PublicKey => TAG_PUBLIC_KEY
    case _ => TAG_SYMMETRIC_KEY
  }

  function ObjectType(t: KeyType): Result<int32> {
    match t
    case SymmetricKey => Ok(OBJTYPE_SYMMETRIC_KEY)
    case PrivateKey => Ok(OBJTYPE_PRIVATE_KEY)
    case PublicKey => Ok(OBJTYPE_PUBLIC_KEY)
    case Certificate => Ok(OBJTYPE_CERTIFICATE)
    case Unset => Err(INVALID_FIELD)
  }

  /** The key object; a symmetric key needs the pair its bytes do not carry. */
  function KeyObject(key: Key, version: ProtocolVersion): Result<Element> {
    var pair := AlgorithmAndLength(key, version);
    match key.keyType
    case Certificate => Err(NOT_IMPLEMENTED)
    case Unset => Err(INVALID_FIELD)
    case _ =>
      if key.keyType.SymmetricKey? && pair.None? then Err(INVALID_FIELD)
      else Ok(Element(ObjectTag(key.keyType), Structure([KeyBlock(SentFormat(key), key.value, pair)])))
  }

  // -------------------------------------------------------------- attributes

  /** What an attribute goes under: a name in KMIP 1.x, a tag in 2.0. */
  datatype Label = Named(name: Bytes) | Tagged(tag: Tag)

  datatype Labels = Labels(name: Label, group: Label, algorithm: Label, length: Label, mask: Label)

  /** "Name", "Object Group", "Cryptographic Algorithm", "... Length", "... Usage Mask". */
  const NAMES := Labels(
    Named([78, 97, 109, 101]),
    Named([79, 98, 106, 101, 99, 116, 32, 71, 114, 111, 117, 112]),
    Named([67, 114, 121, 112, 116, 111, 103, 114, 97, 112, 104, 105, 99, 32,
           65, 108, 103, 111, 114, 105, 116, 104, 109]),
    Named([67, 114, 121, 112, 116, 111, 103, 114, 97, 112, 104, 105, 99, 32, 76, 101, 110, 103, 116, 104]),
    Named([67, 114, 121, 112, 116, 111, 103, 114, 97, 112, 104, 105, 99, 32,
           85, 115, 97, 103, 101, 32, 77, 97, 115, 107]))

  const TAGS := Labels(
    Tagged(TAG_NAME),
    Tagged(TAG_OBJECT_GROUP),
    Tagged(TAG_CRYPTOGRAPHIC_ALGORITHM),
    Tagged(TAG_CRYPTOGRAPHIC_LENGTH),
    Tagged(TAG_CRYPTOGRAPHIC_USAGE_MASK))

  function LabelsOf(version: ProtocolVersion): Labels {
    if version.IsAtLeast(2, 0) then TAGS else NAMES
  }

  predicate SameKind(a: Label, b: Label) {
    a.Tagged? <==> b.Tagged?
  }

  /** Five labels, no two alike, of one kind. */
  predicate Differ(l: Labels) {
    && l.name != l.group && l.name != l.algorithm && l.name != l.length && l.name != l.mask
    && l.group != l.algorithm && l.group != l.length && l.group != l.mask
    && l.algorithm != l.length && l.algorithm != l.mask && l.length != l.mask
    && SameKind(l.name, l.group) && SameKind(l.name, l.algorithm)
    && SameKind(l.name, l.length) && SameKind(l.name, l.mask)
  }

  lemma LabelsDiffer(version: ProtocolVersion)
    ensures Differ(LabelsOf(version))
  {
    assert |NAMES.name.name| < |NAMES.group.name| < |NAMES.length.name| < |NAMES.algorithm.name| < |NAMES.mask.name|;
  }

  /** An attribute as it is sent. */
  function Attribute(own: Label, value: Value): Element {
    match own
    case Tagged(tag) => Element(tag, value)
    case Named(name) =>
      Element(TAG_ATTRIBUTE,
              Structure([Element(TAG_ATTRIBUTE_NAME, TextString(name)), Element(TAG_ATTRIBUTE_VALUE, value)]))
  }

  function ValueUnder(e: Element, place: Label): seq<Value> {
    match place
    case Tagged(tag) => if e.tag == tag then [e.value] else []
    case Named(name) =>
      var own, value := GetChild(e, TAG_ATTRIBUTE_NAME), GetChild(e, TAG_ATTRIBUTE_VALUE);
      if own.Some? && value.Some? && own.value.value == TextString(name) then [value.value.value] else []
  }

  /** All values that attributes declare under a label, of whatever type. */
  function Declared(items: seq<Element>, place: Label): seq<Value> {
    if items == [] then [] else Declared(items[..|items| - 1], place) + ValueUnder(items[|items| - 1], place)
  }

  lemma AttributeValue(own: Label, value: Value, place: Label)
    requires SameKind(own, place)
    ensures ValueUnder(Attribute(own, value), place) == if own == place then [value] else []
  {
    if own.Named? {
      var items := Attribute(own, value).value.items;
      assert items[1..] == [items[1]];
      assert Find(items, TAG_ATTRIBUTE_NAME) == Some(items[0]);
      assert Find(items, TAG_ATTRIBUTE_VALUE) == Find(items[1..], TAG_ATTRIBUTE_VALUE) == Some(items[1]);
    }
  }

  lemma DeclaredNext(items: seq<Element>, own: Label, value: Value, place: Label)
    requires SameKind(own, place)
    ensures Declared(items + [Attribute(own, value)], place) ==
            if own == place then Declared(items, place) + [value] else Declared(items, place)
  {
    AttributeValue(own, value, place);
    assert (items + [Attribute(own, value)])[..|items|] == items;
    assert Declared(items, place) + [] == Declared(items, place);
  }

  /** The texts of the generic attributes of one name. */
  function TextsOf(generic: seq<(Bytes, Bytes)>, place: Label): seq<Value> {
    if generic == [] then []
    else
      var last := generic[|generic| - 1];
      TextsOf(generic[..|generic| - 1], place) + (if Named(last.0) == place then [TextString(last.1)] else [])
  }

  lemma {:induction false} TextsOfNone(generic: seq<(Bytes, Bytes)>, place: Label)
    ensures TextsOf(generic, place) == [] <==> forall i :: 0 <= i < |generic| ==> Named(generic[i].0) != place
  {
    if generic != [] {
      var init, last := generic[..|generic| - 1], generic[|generic| - 1];
      TextsOfNone(init, place);
      assert forall i :: 0 <= i < |init| ==> init[i] == generic[i];
      if Named(last.0) == place {
        assert Named(generic[|generic| - 1].0) == place;
      }
    }
  }

  function Values(value: Option<Value>): seq<Value> {
    if value.Some? then [value.value] else []
  }

  /** The values that Register sends, if it sends them. */
  function NameValue(x: Extras): Option<Value> {
    Some(Structure([Element(TAG_NAME_VALUE, TextString(x.name)), Element(TAG_NAME_TYPE, Enumeration(1))]))
  }

  function GroupValue(x: Extras): Option<Value> {
    if x.group != [] then Some(TextString(x.group)) else None
  }

  function AlgorithmValue(pair: Option<Pair>): Option<Value> {
    if pair.Some? then Some(Enumeration(pair.value.algorithm)) else None
  }

  function LengthValue(pair: Option<Pair>): Option<Value> {
    if pair.Some? then Some(Integer(pair.value.length)) else None
  }

  function MaskValue(x: Extras): Option<Value> {
    if x.usageMask != 0 then Some(Integer(x.usageMask)) else None
  }

  function Typed(l: Labels, x: Extras, pair: Option<Pair>, place: Label): Option<Value> {
    if place == l.name then NameValue(x)
    else if place == l.group then GroupValue(x)
    else if place == l.algorithm then AlgorithmValue(pair)
    else if place == l.length then LengthValue(pair)
    else if place == l.mask then MaskValue(x)
    else None
  }

  /** What generic attributes put under a label: Name and Object Group are skipped. */
  function Texts(l: Labels, generic: seq<(Bytes, Bytes)>, place: Label): seq<Value> {
    if place == l.name || place == l.group then [] else TextsOf(generic, place)
  }

  /** Under every label stand its typed value, if there is one, and then the
      generic texts of that name. KMIP 2.0 has no names, so no texts. */
  ghost predicate Declares(l: Labels, items: seq<Element>, x: Extras, pair: Option<Pair>) {
    forall place :: SameKind(place, l.name) ==>
      Declared(items, place) == Values(Typed(l, x, pair, place)) + Texts(l, x.generic, place)
  }

  /** The pair, and nothing else, stands under its two labels. */
  predicate DeclaresPair(l: Labels, items: seq<Element>, pair: Option<Pair>) {
    && Declared(items, l.algorithm) == Values(AlgorithmValue(pair))
    && Declared(items, l.length) == Values(LengthValue(pair))
  }

  /** No generic attribute is named like the algorithm or the length. */
  predicate PairUnnamed(generic: seq<(Bytes, Bytes)>) {
    forall i :: 0 <= i < |generic| ==> Named(generic[i].0) != NAMES.algorithm && Named(generic[i].0) != NAMES.length
  }

  function Slot(l: Labels, place: Label): nat {
    if place == l.name then 0
    else if place == l.group then 1
    else if place == l.algorithm then 2
    else if place == l.length then 3
    else if place == l.mask then 4
    else 5
  }

  /** The typed values of the first `k` labels, and nothing else, are declared. */
  ghost predicate Collected(l: Labels, x: Extras, pair: Option<Pair>, items: seq<Element>, k: nat) {
    forall place :: SameKind(place, l.name) ==>
      Declared(items, place) == if Slot(l, place) < k then Values(Typed(l, x, pair, place)) else []
  }

  /** Adds the attribute of one label, if there is a value for it. */
  method AddTyped(l: Labels, x: Extras, pair: Option<Pair>, items: seq<Element>, own: Label)
    returns (items': seq<Element>)
    requires SameKind(own, l.name) && Slot(l, own) < 5 && Collected(l, x, pair, items, Slot(l, own))
    ensures Collected(l, x, pair, items', Slot(l, own) + 1)
  {
    items' := items;
    var value := Typed(l, x, pair, own);
    if value.Some? {
      items' := items + [Attribute(own, value.value)];
    }
    forall place | SameKind(place, l.name)
      ensures Declared(items', place) ==
              if Slot(l, place) < Slot(l, own) + 1 then Values(Typed(l, x, pair, place)) else []
    {
      if value.Some? {
        DeclaredNext(items, own, value.value, place);
      }
    }
  }

  method CollectTyped(l: Labels, x: Extras, pair: Option<Pair>) returns (items: seq<Element>)
    requires Differ(l)
    ensures Collected(l, x, pair, items, 5)
  {
    assert Slot(l, l.name) == 0 && Slot(l, l.group) == 1 && Slot(l, l.algorithm) == 2;
    assert Slot(l, l.length) == 3 && Slot(l, l.mask) == 4;
    items := AddTyped(l, x, pair, [], l.name);
    items := AddTyped(l, x, pair, items, l.group);
    items := AddTyped(l, x, pair, items, l.algorithm);
    items := AddTyped(l, x, pair, items, l.length);
    items := AddTyped(l, x, pair, items, l.mask);
  }

  /** A generic attribute goes out as a text, unless it is a Name or an Object Group. */
  function AddText(l: Labels, items: seq<Element>, g: (Bytes, Bytes)): seq<Element> {
    if Named(g.0) == l.name || Named(g.0) == l.group then items
    else items + [Attribute(Named(g.0), TextString(g.1))]
  }

  method AddGeneric(l: Labels, items: seq<Element>, generic: seq<(Bytes, Bytes)>) returns (items': seq<Element>)
    requires l.name.Named?
    ensures AddsTexts(l, items, generic, items')
  {
    items' := items;
    NothingAdded(l, items);
    ghost var done: seq<(Bytes, Bytes)> := [];
    for i := 0 to |generic|
      invariant done == generic[..i] && AddsTexts(l, items, done, items')
    {
      TextAdded(l, items, done, items', generic[i]);
      items' := AddText(l, items', generic[i]);
      done := done + [generic[i]];
    }
    assert done == generic;
  }

  ghost predicate AddsTexts(l: Labels, items: seq<Element>, generic: seq<(Bytes, Bytes)>, items': seq<Element>) {
    forall place: Label :: place.Named? ==>
      Declared(items', place) == Declared(items, place) + Texts(l, generic, place)
  }

  lemma NothingAdded(l: Labels, items: seq<Element>)
    ensures AddsTexts(l, items, [], items)
  {
    forall place: Label | place.Named?
      ensures Declared(items, place) == Declared(items, place) + Texts(l, [], place)
    {
      assert Texts(l, [], place) == [];
    }
  }

  lemma TextAdded(l: Labels, items: seq<Element>, generic: seq<(Bytes, Bytes)>, items': seq<Element>, g: (Bytes, Bytes))
    requires l.name.Named? && AddsTexts(l, items, generic, items')
    ensures AddsTexts(l, items, generic + [g], AddText(l, items', g))
  {
    forall place: Label | place.Named?
      ensures Declared(AddText(l, items', g), place) == Declared(items, place) + Texts(l, generic + [g], place)
    {
      TextAt(l, items, generic, items', g, place);
    }
  }

  lemma TextsNext(l: Labels, generic: seq<(Bytes, Bytes)>, g: (Bytes, Bytes), place: Label)
    ensures Texts(l, generic + [g], place) ==
            if Named(g.0) == place && place != l.name && place != l.group
            then Texts(l, generic, place) + [TextString(g.1)]
            else Texts(l, generic, place)
  {
    assert (generic + [g])[..|generic|] == generic;
    assert TextsOf(generic, place) + [] == TextsOf(generic, place);
  }

  lemma TextAt(l: Labels, items: seq<Element>, generic: seq<(Bytes, Bytes)>, items': seq<Element>, g: (Bytes, Bytes),
               place: Label)
    requires place.Named? && Declared(items', place) == Declared(items, place) + Texts(l, generic, place)
    ensures Declared(AddText(l, items', g), place) == Declared(items, place) + Texts(l, generic + [g], place)
  {
    TextsNext(l, generic, g, place);
    DeclaredNext(items', Named(g.0), TextString(g.1), place);
  }

  /** The attributes of a Register: typed elements in KMIP 2.0, which leaves the
      generic ones out, and name and value pairs before it. The pair stands alone
      under its labels exactly when no generic attribute is sent there. */
  method CollectAttributes(x: Extras, pair: Option<Pair>, version: ProtocolVersion) returns (items: seq<Element>)
    ensures Declares(LabelsOf(version), items, x, pair)
    ensures DeclaresPair(LabelsOf(version), items, pair) <==> version.IsAtLeast(2, 0) || PairUnnamed(x.generic)
  {
    var l := LabelsOf(version);
    LabelsDiffer(version);
    items := CollectTyped(l, x, pair);
    ghost var typed := items;
    if version.IsAtLeast(2, 0) {
      TagsHaveNoTexts(items, x, pair);
    } else {
      items := AddGeneric(l, items, x.generic);
      NamesHaveTexts(typed, items, x, pair);
    }
    PairAlone(l, items, x, pair);
  }

  lemma TypedAt(l: Labels, items: seq<Element>, x: Extras, pair: Option<Pair>, place: Label)
    requires Collected(l, x, pair, items, 5) && SameKind(place, l.name)
    ensures Declared(items, place) == Values(Typed(l, x, pair, place))
  {
  }

  lemma TagsHaveNoTexts(items: seq<Element>, x: Extras, pair: Option<Pair>)
    requires Collected(TAGS, x, pair, items, 5)
    ensures Declares(TAGS, items, x, pair)
  {
    forall place | SameKind(place, TAGS.name)
      ensures Declared(items, place) == Values(Typed(TAGS, x, pair, place)) + Texts(TAGS, x.generic, place)
    {
      TypedAt(TAGS, items, x, pair, place);
      TextsOfNone(x.generic, place);
      assert Texts(TAGS, x.generic, place) == [];
    }
  }

  lemma NamesHaveTexts(typed: seq<Element>, items: seq<Element>, x: Extras, pair: Option<Pair>)
    requires Collected(NAMES, x, pair, typed, 5) && AddsTexts(NAMES, typed, x.generic, items)
    ensures Declares(NAMES, items, x, pair)
  {
    forall place | SameKind(place, NAMES.name)
      ensures Declared(items, place) == Values(Typed(NAMES, x, pair, place)) + Texts(NAMES, x.generic, place)
    {
      TypedAt(NAMES, typed, x, pair, place);
    }
  }

  lemma PairAlone(l: Labels, items: seq<Element>, x: Extras, pair: Option<Pair>)
    requires Differ(l) && Declares(l, items, x, pair)
    ensures DeclaresPair(l, items, pair) <==>
            forall i :: 0 <= i < |x.generic| ==>
              Named(x.generic[i].0) != l.algorithm && Named(x.generic[i].0) != l.length
  {
    TextsOfNone(x.generic, l.algorithm);
    TextsOfNone(x.generic, l.length);
    AddsNothing(Values(AlgorithmValue(pair)), TextsOf(x.generic, l.algorithm));
    AddsNothing(Values(LengthValue(pair)), TextsOf(x.generic, l.length));
  }

  lemma AddsNothing(a: seq<Value>, b: seq<Value>)
    ensures a + b == a <==> b == []
  {
    assert |a + b| == |a| + |b|;
  }

  // -------------------------------------------------------------- Get parser

  /** What the attribute parser reads from a key value's attributes. */
  datatype Attributes = Attributes(algorithm: int32, length: Option<int32>)

  type AttributesParser = seq<Element> -> Result<Attributes>

  function Required(e: Option<Element>): Result<Element> {
    if e.Some? then Ok(e.value) else Err(INVALID_ENCODING)
  }

  function AllChildren(items: seq<Element>, tag: Tag): seq<Element> {
    if items == [] then []
    else (if items[0].tag == tag then [items[0]] else []) + AllChildren(items[1..], tag)
  }

  predicate ValidAlgorithm(algorithm: int32) {
    ALG_UNSET <= algorithm <= ALG_ED448
  }

  function CheckedAlgorithm(block: Element, otherwise: int32): Result<int32> {
    var e := GetChild(block, TAG_CRYPTOGRAPHIC_ALGORITHM);
    if e.None? then Ok(otherwise)
    else
      var algorithm :- ToEnum(e.value);
      if ValidAlgorithm(algorithm) then Ok(algorithm) else Err(ENUM_UNSUPPORTED)
  }

  function BlockLength(block: Element, otherwise: Option<int32>): Result<Option<int32>> {
    var e := GetChild(block, TAG_CRYPTOGRAPHIC_LENGTH);
    if e.None? then Ok(otherwise)
    else
      var length :- ToInt(e.value);
      Ok(Some(length))
  }

  /** The bytes of the Key Material; a structure of key components is refused. */
  function KeyBytes(material: Element, format: Element): Result<Bytes> {
    match material.value
    case Structure(_) =>
      var _ :- ToEnum(format);
      Err(NOT_IMPLEMENTED)
    case ByteString(bytes) => Ok(bytes)
    case _ => Err(INVALID_ENCODING)
  }

  function ParseKeyHolder(holder: Element, keyType: KeyType, parse: AttributesParser): Result<Key> {
    var block :- Required(GetChild(holder, TAG_KEY_BLOCK));
    var value :- Required(GetChild(block, TAG_KEY_VALUE));
    var material :- Required(GetChild(value, TAG_KEY_MATERIAL));
    var formatElement :- Required(GetChild(block, TAG_KEY_FORMAT_TYPE));
    var bytes :- KeyBytes(material, formatElement);
    var attributes :- parse(if value.value.Structure? then AllChildren(value.value.items, TAG_ATTRIBUTE) else []);
    var algorithm :- CheckedAlgorithm(block, attributes.algorithm);
    var length :- BlockLength(block, attributes.length);
    var format :- ToEnum(formatElement);
    Ok(Key(keyType, bytes, Some(format), algorithm, length))
  }

  /** A symmetric key's block, if there is one, must be Raw. */
  function RawOnly(holder: Element): Result<()> {
    var block := GetChild(holder, TAG_KEY_BLOCK);
    if block.None? then Ok(())
    else
      var formatElement :- Required(GetChild(block.value, TAG_KEY_FORMAT_TYPE));
      var format :- ToEnum(formatElement);
      if format == FORMAT_RAW then Ok(()) else Err(INVALID_ENCODING)
  }

  function KeyTypeOf(objectType: int32): Result<KeyType> {
    if objectType == OBJTYPE_SYMMETRIC_KEY then Ok(SymmetricKey)
    else if objectType == OBJTYPE_PRIVATE_KEY then Ok(PrivateKey)
    else if objectType == OBJTYPE_PUBLIC_KEY then Ok(PublicKey)
    else Err(NOT_IMPLEMENTED)
  }

  function ParseResponse(payload: Option<Element>, parse: AttributesParser): Result<Key> {
    var response :- Required(payload);
    var typeElement :- Required(GetChild(response, TAG_OBJECT_TYPE));
    var objectType :- ToEnum(typeElement);
    var keyType :- KeyTypeOf(objectType);
    var holder :- Required(GetChild(response, ObjectTag(keyType)));
    if keyType.SymmetricKey? then
      var _ :- RawOnly(holder);
      ParseKeyHolder(holder, keyType, parse)
    else ParseKeyHolder(holder, keyType, parse)
  }

  /** The Key Value, if it is a structure, may carry attributes. */
  function ValueAttributes(value: Element): seq<Element> {
    if value.value.Structure? then AllChildren(value.value.items, 0x420008) else []
  }

  /** What the parser reads, tag by tag: the bytes of the Key Material in the Key Value
      of the Key Block, its Key Format Type, and the algorithm and the length of the
      block or else those of the attributes in the Key Value. */
  lemma ParsedExactly(holder: Element, keyType: KeyType, parse: AttributesParser, key: Key)
    ensures ParseKeyHolder(holder, keyType, parse) == Ok(key) <==>
            var block := GetChild(holder, 0x420040);
            && block.Some? && GetChild(block.value, 0x420045).Some?
            && var value := GetChild(block.value, 0x420045).value;
               var algorithm, length := GetChild(block.value, 0x420028), GetChild(block.value, 0x42002A);
               var format, attributes := GetChild(block.value, 0x420042), parse(ValueAttributes(value));
               && GetChild(value, 0x420043).Some? && GetChild(value, 0x420043).value.value == ByteString(key.value)
               && attributes.Ok? && key.keyType == keyType
               && format.Some? && key.format.Some? && format.value.value == Enumeration(key.format.value)
               && (if algorithm.None? then key.algorithm == attributes.value.algorithm
                   else 0 <= key.algorithm <= 0x38 && algorithm.value.value == Enumeration(key.algorithm))
               && (if length.None? then key.length == attributes.value.length
                   else key.length.Some? && length.value.value == Integer(key.length.value))
  {
  }

  // --------------------------------------------------------------- agreement

  lemma BlockRead(format: int32, value: Bytes, pair: Option<Pair>)
    ensures var block := KeyBlock(format, value, pair);
            && GetChild(block, TAG_KEY_FORMAT_TYPE) == Some(Element(TAG_KEY_FORMAT_TYPE, Enumeration(format)))
            && GetChild(block, TAG_KEY_VALUE) == Some(KeyValueElement(value))
            && GetChild(block, TAG_CRYPTOGRAPHIC_ALGORITHM) == AlgorithmField(pair)
            && GetChild(block, TAG_CRYPTOGRAPHIC_LENGTH) == LengthField(pair)
  {
    var block, fs := KeyBlock(format, value, pair), KeyBlockFields(format, value, pair);
    FieldsFound(block, fs, KEY_BLOCK_TAGS);
    assert GetChild(block, KEY_BLOCK_TAGS[0]) == fs[0] && GetChild(block, KEY_BLOCK_TAGS[1]) == fs[1];
    assert GetChild(block, KEY_BLOCK_TAGS[2]) == fs[2] && GetChild(block, KEY_BLOCK_TAGS[3]) == fs[3];
  }

  lemma BlockTree(format: int32, value: Bytes, pair: Option<Pair>)
    ensures KeyBlock(format, value, pair) ==
            Element(0x420040, Structure(
              [Element(0x420042, Enumeration(format)),
               Element(0x420045, Structure([Element(0x420043, ByteString(value))]))]
              + (if pair.None? then []
                 else [Element(0x420028, Enumeration(pair.value.algorithm)),
                       Element(0x42002A, Integer(pair.value.length))])))
  {
    var fs := KeyBlockFields(format, value, pair);
    var own := [Element(0x420042, Enumeration(format)),
                Element(0x420045, Structure([Element(0x420043, ByteString(value))]))];
    FourFields(fs);
    assert Present(fs[0]) + (Present(fs[1]) + (Present(fs[2]) + Present(fs[3]))) ==
           own + (Present(fs[2]) + Present(fs[3]));
    if pair.None? {
      assert Present(fs[2]) + Present(fs[3]) == [];
    } else {
      assert Present(fs[2]) + Present(fs[3]) == [fs[2].value, fs[3].value];
    }
  }

  /** What the parser makes of a key block Register wrote. */
  lemma HolderRead(holder: Element, keyType: KeyType, format: int32, value: Bytes, pair: Option<Pair>,
                   parse: AttributesParser)
    requires parse([]) == Ok(Attributes(ALG_UNSET, None))
    requires holder.value == Structure([KeyBlock(format, value, pair)])
    ensures RawOnly(holder) == if format == FORMAT_RAW then Ok(()) else Err(INVALID_ENCODING)
    ensures ParseKeyHolder(holder, keyType, parse) ==
            if pair.None? then Ok(Key(keyType, value, Some(format), ALG_UNSET, None))
            else if ValidAlgorithm(pair.value.algorithm) then
              Ok(Key(keyType, value, Some(format), pair.value.algorithm, Some(pair.value.length)))
            else Err(ENUM_UNSUPPORTED)
  {
    BlockRead(format, value, pair);
    assert GetChild(holder, TAG_KEY_BLOCK) == Some(KeyBlock(format, value, pair));
    var items := KeyValueElement(value).value.items;
    assert items[1..] == [];
    assert AllChildren(items, TAG_ATTRIBUTE) == [];
    assert GetChild(KeyValueElement(value), TAG_KEY_MATERIAL) == Some(items[0]);
  }

  /** Whether Register accepts a key. */
  predicate Accepted(key: Key, version: ProtocolVersion) {
    || key.keyType.PrivateKey? || key.keyType.PublicKey?
    || (key.keyType.SymmetricKey? && AlgorithmAndLength(key, version).Some?)
  }

  /** Whether the Get parser knows the format and the algorithm sent: Raw (1) for a
      symmetric key, and algorithms up to Ed448 (0x38). */
  predicate Gettable(key: Key, version: ProtocolVersion) {
    && (key.keyType.SymmetricKey? && key.format.Some? ==> key.format.value == 1)
    && (AlgorithmAndLength(key, version).Some? ==> 0 <= key.algorithm <= 0x38)
  }

  /** The format that a key is sent and read back in: its own, or the default of its
      type, which is PKCS#8 (4) for a private key, X.509 (5) for a public one and Raw
      (1) for a symmetric one. */
  function WireFormat(key: Key): int32 {
    if key.format.Some? then key.format.value
    else if key.keyType.PrivateKey? then 4
    else if key.keyType.PublicKey? then 5
    else 1
  }

  /** The payload of a Register, tag by tag (KMIP 1.4 sections 2.1.3, 2.2 and 4.3): the
      object type, the attributes, and the object with its key block, in which the
      algorithm and the length come last or not at all. */
  ghost predicate WrittenAs(payload: Element, key: Key, items: seq<Element>, version: ProtocolVersion) {
    var pair := AlgorithmAndLength(key, version);
    var material := Element(0x420045, Structure([Element(0x420043, ByteString(key.value))]));
    var fields := [Element(0x420042, Enumeration(WireFormat(key))), material]
                  + (if pair.None? then []
                     else [Element(0x420028, Enumeration(pair.value.algorithm)),
                           Element(0x42002A, Integer(pair.value.length))]);
    var tag := if key.keyType.PrivateKey? then 0x420064 else if key.keyType.PublicKey? then 0x42006D else 0x42008F;
    var objectType := if key.keyType.PrivateKey? then 4 else if key.keyType.PublicKey? then 3 else 2;
    payload == Element(0x420079, Structure([
      Element(0x420057, Enumeration(objectType)),
      Element(if version.IsAtLeast(2, 0) then 0x420125 else 0x420091, Structure(items)),
      Element(tag, Structure([Element(0x420040, Structure(fields))]))]))
  }

  /** What comes back of a key: its own type and bytes, the format sent, and the
      pair or neither of its halves. */
  function KeyReadBack(key: Key, version: ProtocolVersion): Key {
    var pair := AlgorithmAndLength(key, version);
    Key(key.keyType, key.value, Some(WireFormat(key)),
        if pair.Some? then pair.value.algorithm else ALG_UNSET,
        if pair.Some? then Some(pair.value.length) else None)
  }

  ghost predicate ReadsBack(payload: Element, key: Key, version: ProtocolVersion, parse: AttributesParser) {
    var read := ParseResponse(Some(payload), parse);
    (read.Ok? <==> Gettable(key, version)) && (read.Ok? ==> read.value == KeyReadBack(key, version))
  }

  ghost predicate Carries(items: seq<Element>, key: Key, x: Extras, version: ProtocolVersion) {
    var pair := AlgorithmAndLength(key, version);
    && Declares(LabelsOf(version), items, x, pair)
    && (DeclaresPair(LabelsOf(version), items, pair) <==> version.IsAtLeast(2, 0) || PairUnnamed(x.generic))
  }

  ghost predicate Registers(payload: Element, key: Key, x: Extras, version: ProtocolVersion) {
    exists items :: WrittenAs(payload, key, items, version) && Carries(items, key, x, version)
  }

  /** The payload of a Register. Register and Get agree: an accepted key is read
      back by the Get parser exactly when it knows the format and the algorithm.
      The attributes declare the pair and nothing else under its names exactly when
      the version is 2.0 or no generic attribute has one of those names. */
  method RegisterKeyRequest(key: Key, x: Extras, version: ProtocolVersion, ghost parse: AttributesParser)
    returns (r: Result<Element>)
    requires parse([]) == Ok(Attributes(ALG_UNSET, None))
    ensures r.Ok? <==> Accepted(key, version)
    ensures r.Err? ==> r.code == if key.keyType.Certificate? then NOT_IMPLEMENTED else INVALID_FIELD
    ensures r.Ok? ==> ReadsBack(r.value, key, version, parse) && Registers(r.value, key, x, version)
  {
    var objectType :- ObjectType(key.keyType);
    var pair := AlgorithmAndLength(key, version);
    var items := CollectAttributes(x, pair, version);
    var tag := if version.IsAtLeast(2, 0) then TAG_ATTRIBUTES else TAG_TEMPLATE_ATTRIBUTE;
    var attributes := Element(tag, Structure(items));
    var holder :- KeyObject(key, version);
    var payload := Element(TAG_REQUEST_PAYLOAD,
                           Structure([Element(TAG_OBJECT_TYPE, Enumeration(objectType)), attributes, holder]));
    Agrees(payload, key, x, items, version, parse);
    r := Ok(payload);
  }

  lemma Agrees(payload: Element, key: Key, x: Extras, items: seq<Element>, version: ProtocolVersion,
               parse: AttributesParser)
    requires parse([]) == Ok(Attributes(ALG_UNSET, None)) && Carries(items, key, x, version)
    requires ObjectType(key.keyType).Ok? && !key.keyType.Certificate?
    requires var tag := if version.IsAtLeast(2, 0) then TAG_ATTRIBUTES else TAG_TEMPLATE_ATTRIBUTE;
             var block := KeyBlock(SentFormat(key), key.value, AlgorithmAndLength(key, version));
             payload ==
             Element(TAG_REQUEST_PAYLOAD,
                     Structure([Element(TAG_OBJECT_TYPE, Enumeration(ObjectType(key.keyType).value)),
                                Element(tag, Structure(items)),
                                Element(ObjectTag(key.keyType), Structure([block]))]))
    ensures ReadsBack(payload, key, version, parse) && Registers(payload, key, x, version)
  {
    PayloadParsed(payload, key, payload.value.items[1], AlgorithmAndLength(key, version), parse);
    BlockTree(SentFormat(key), key.value, AlgorithmAndLength(key, version));
    assert WrittenAs(payload, key, items, version);
  }

  /** The condition is needed: a generic attribute of that name goes out as a text,
      next to the pair or alone. */
  method NamedTwice(x: Extras, pair: Option<Pair>, text: Bytes, version: ProtocolVersion) returns (items: seq<Element>)
    requires !version.IsAtLeast(2, 0) && x.generic == [(NAMES.length.name, text)]
    ensures Declared(items, NAMES.length) == Values(LengthValue(pair)) + [TextString(text)]
  {
    items := CollectAttributes(x, pair, version);
    LabelsDiffer(version);
    assert TextsOf(x.generic, NAMES.length) == [] + [TextString(text)];
  }

  lemma PayloadParsed(payload: Element, key: Key, attributes: Element, pair: Option<Pair>, parse: AttributesParser)
    requires parse([]) == Ok(Attributes(ALG_UNSET, None)) && ObjectType(key.keyType).Ok? && !key.keyType.Certificate?
    requires attributes.tag == TAG_ATTRIBUTES || attributes.tag == TAG_TEMPLATE_ATTRIBUTE
    requires payload.value ==
             Structure([Element(TAG_OBJECT_TYPE, Enumeration(ObjectType(key.keyType).value)),
                        attributes,
                        Element(ObjectTag(key.keyType), Structure([KeyBlock(SentFormat(key), key.value, pair)]))])
    ensures var read := ParseResponse(Some(payload), parse);
            && (read.Ok? <==>
                && (key.keyType.SymmetricKey? ==> SentFormat(key) == FORMAT_RAW)
                && (pair.Some? ==> ValidAlgorithm(pair.value.algorithm)))
            && (read.Ok? ==> read.value == Key(key.keyType, key.value, Some(SentFormat(key)),
                                               if pair.Some? then pair.value.algorithm else ALG_UNSET,
                                               if pair.Some? then Some(pair.value.length) else None))
  {
    var holder := Element(ObjectTag(key.keyType), Structure([KeyBlock(SentFormat(key), key.value, pair)]));
    var typeElement := Element(TAG_OBJECT_TYPE, Enumeration(ObjectType(key.keyType).value));
    HolderRead(holder, key.keyType, SentFormat(key), key.value, pair, parse);
    PayloadRead(payload, typeElement, attributes, holder);
    HolderParsed(payload, key.keyType, typeElement, holder, parse);
  }

  lemma HolderParsed(payload: Element, keyType: KeyType, typeElement: Element, holder: Element, parse: AttributesParser)
    requires ObjectType(keyType).Ok? && !keyType.Certificate?
    requires typeElement.value == Enumeration(ObjectType(keyType).value)
    requires GetChild(payload, TAG_OBJECT_TYPE) == Some(typeElement)
    requires GetChild(payload, ObjectTag(keyType)) == Some(holder)
    ensures ParseResponse(Some(payload), parse) ==
            if keyType.SymmetricKey? && RawOnly(holder).Err? then Err(RawOnly(holder).code)
            else ParseKeyHolder(holder, keyType, parse)
  {
  }

  lemma PayloadRead(payload: Element, typeElement: Element, attributes: Element, holder: Element)
    requires payload.value == Structure([typeElement, attributes, holder])
    requires typeElement.tag == TAG_OBJECT_TYPE
    requires attributes.tag == TAG_ATTRIBUTES || attributes.tag == TAG_TEMPLATE_ATTRIBUTE
    requires holder.tag == TAG_SYMMETRIC_KEY || holder.tag == TAG_PRIVATE_KEY || holder.tag == TAG_PUBLIC_KEY
    ensures GetChild(payload, TAG_OBJECT_TYPE) == Some(typeElement) && GetChild(payload, holder.tag) == Some(holder)
  {
  }
}
