/** Tags, child lookup and checked accessors over TTLV elements. */
module Elements {
  import opened Prelude
  import opened Ttlv

  const TAG_ATTRIBUTE: Tag := 0x420008
  const TAG_ATTRIBUTE_NAME: Tag := 0x42000A
  const TAG_ATTRIBUTE_VALUE: Tag := 0x42000B
  const TAG_AUTHENTICATION: Tag := 0x42000C
  const TAG_BATCH_COUNT: Tag := 0x42000D
  const TAG_BATCH_ITEM: Tag := 0x42000F
  const TAG_BATCH_ORDER_OPTION: Tag := 0x420010
  const TAG_CREDENTIAL: Tag := 0x420023
  const TAG_CREDENTIAL_TYPE: Tag := 0x420024
  const TAG_CREDENTIAL_VALUE: Tag := 0x420025
  const TAG_CRYPTOGRAPHIC_ALGORITHM: Tag := 0x420028
  const TAG_CRYPTOGRAPHIC_LENGTH: Tag := 0x42002A
  const TAG_CRYPTOGRAPHIC_USAGE_MASK: Tag := 0x42002C
  const TAG_IV_COUNTER_NONCE: Tag := 0x42003D
  const TAG_KEY_BLOCK: Tag := 0x420040
  const TAG_KEY_FORMAT_TYPE: Tag := 0x420042
  const TAG_KEY_MATERIAL: Tag := 0x420043
  const TAG_KEY_VALUE: Tag := 0x420045
  const TAG_MAC_SIGNATURE: Tag := 0x42004D
  const TAG_MAXIMUM_RESPONSE_SIZE: Tag := 0x420050
  const TAG_NAME: Tag := 0x420053
  const TAG_NAME_TYPE: Tag := 0x420054
  const TAG_NAME_VALUE: Tag := 0x420055
  const TAG_OBJECT_GROUP: Tag := 0x420056
  const TAG_OBJECT_TYPE: Tag := 0x420057
  const TAG_OPERATION: Tag := 0x42005C
  const TAG_PRIVATE_KEY: Tag := 0x420064
  const TAG_PROTOCOL_VERSION: Tag := 0x420069
  const TAG_PROTOCOL_VERSION_MAJOR: Tag := 0x42006A
  const TAG_PROTOCOL_VERSION_MINOR: Tag := 0x42006B
  const TAG_PUBLIC_KEY: Tag := 0x42006D
  const TAG_REQUEST_HEADER: Tag := 0x420077
  const TAG_REQUEST_MESSAGE: Tag := 0x420078
  const TAG_REQUEST_PAYLOAD: Tag := 0x420079
  const TAG_RESPONSE_HEADER: Tag := 0x42007A
  const TAG_RESPONSE_MESSAGE: Tag := 0x42007B
  const TAG_RESPONSE_PAYLOAD: Tag := 0x42007C
  const TAG_RESULT_MESSAGE: Tag := 0x42007D
  const TAG_RESULT_REASON: Tag := 0x42007E
  const TAG_RESULT_STATUS: Tag := 0x42007F
  const TAG_SALT: Tag := 0x420084
  const TAG_SECRET_DATA: Tag := 0x420085
  const TAG_SYMMETRIC_KEY: Tag := 0x42008F
  const TAG_TEMPLATE_ATTRIBUTE: Tag := 0x420091
  const TAG_TIME_STAMP: Tag := 0x420092
  const TAG_UNIQUE_BATCH_ITEM_ID: Tag := 0x420093
  const TAG_UNIQUE_IDENTIFIER: Tag := 0x420094
  const TAG_USERNAME: Tag := 0x420099
  const TAG_PASSWORD: Tag := 0x4200A1
  const TAG_NONCE_VALUE: Tag := 0x4200CA
  const TAG_LOCATED_ITEMS: Tag := 0x4200D5
  const TAG_ATTRIBUTES: Tag := 0x420125

  /** The first child with the tag. */
  function Find(items: seq<Element>, tag: Tag): (r: Option<Element>)
    ensures r.Some? ==> r.value in items && r.value.tag == tag
    ensures r.None? ==> forall c :: c in items ==> c.tag != tag
  {
    if items == [] then None
    else if items[0].tag == tag then Some(items[0])
    else Find(items[1..], tag)
  }

  lemma {:induction false} FindsFirst(items: seq<Element>, tag: Tag) returns (i: nat)
    requires Find(items, tag).Some?
    ensures i < |items| && Find(items, tag) == Some(items[i]) && forall j :: 0 <= j < i ==> items[j].tag != tag
  {
    i := 0;
    if items[0].tag != tag {
      var k := FindsFirst(items[1..], tag);
      i := k + 1;
      forall j | 0 <= j < i ensures items[j].tag != tag {
        assert j > 0 ==> items[j] == items[1..][j - 1];
      }
    }
  }

  function GetChild(e: Element, tag: Tag): (r: Option<Element>)
    ensures r.Some? ==> e.value.Structure? && r.value in e.value.items && r.value.tag == tag
  {
    if e.value.Structure? then Find(e.value.items, tag) else None
  }

  /** The children a structure gets from a row of optional fields. */
  function Fields(fs: seq<Option<Element>>): (s: seq<Element>)
    ensures forall x :: x in s <==> Some(x) in fs
  {
    if fs == [] then []
    else if fs[0].None? then Fields(fs[1..])
    else [fs[0].value] + Fields(fs[1..])
  }

  /** A field, if it is there. */
  function Present(f: Option<Element>): seq<Element> {
    if f.Some? then [f.value] else []
  }

  /** A field that is there goes in front of those after it. */
  lemma FieldsFrom(fs: seq<Option<Element>>, i: nat)
    requires i < |fs|
    ensures Fields(fs[i..]) == Present(fs[i]) + Fields(fs[i + 1..])
  {
    assert fs[i..][1..] == fs[i + 1..];
  }

  lemma FourFields(fs: seq<Option<Element>>)
    requires |fs| == 4
    ensures Fields(fs) == Present(fs[0]) + (Present(fs[1]) + (Present(fs[2]) + Present(fs[3])))
  {
    FieldsFrom(fs, 0);
    FieldsFrom(fs, 1);
    FieldsFrom(fs, 2);
    FieldsFrom(fs, 3);
    assert fs[0..] == fs && fs[4..] == [];
  }

  lemma SixFields(fs: seq<Option<Element>>)
    requires |fs| == 6
    ensures Fields(fs) == Present(fs[0]) + (Present(fs[1]) + (Present(fs[2])
                          + (Present(fs[3]) + (Present(fs[4]) + Present(fs[5])))))
  {
    FieldsFrom(fs, 0);
    FieldsFrom(fs, 1);
    FourFields(fs[2..]);
    assert fs[0..] == fs;
  }

  /** The fields carry these tags, no two the same. */
  ghost predicate TagsAre(fs: seq<Option<Element>>, tags: seq<Tag>) {
    && |fs| == |tags|
    && (forall i :: 0 <= i < |fs| && fs[i].Some? ==> fs[i].value.tag == tags[i])
    && (forall i, j :: 0 <= i < j < |tags| ==> tags[i] != tags[j])
  }

  /** `e` answers a lookup of each tag with the field that belongs to it. */
  ghost predicate HasFields(e: Element, fs: seq<Option<Element>>, tags: seq<Tag>) {
    && e.value.Structure? && |fs| == |tags|
    && forall i :: 0 <= i < |fs| ==> GetChild(e, tags[i]) == fs[i]
  }

  /** Fields are found as they were put, present or absent. */
  lemma FieldsFound(e: Element, fs: seq<Option<Element>>, tags: seq<Tag>)
    requires TagsAre(fs, tags) && e.value == Structure(Fields(fs))
    ensures HasFields(e, fs, tags)
  {
  }

  function ToInt(e: Element): Result<int32> {
    if e.value.Integer? then Ok(e.value.integer) else Err(GENERAL_FAILURE)
  }

  function ToLong(e: Element): Result<int64> {
    match e.value
    case LongInteger(n) => Ok(n)
    case DateTime(n) => Ok(n)
    case DateTimeExtended(n) => Ok(n)
    case _ => Err(GENERAL_FAILURE)
  }

  function ToBool(e: Element): Result<bool> {
    if e.value.Boolean? then Ok(e.value.flag) else Err(GENERAL_FAILURE)
  }

  function ToText(e: Element): Result<seq<byte>> {
    if e.value.TextString? then Ok(e.value.text) else Err(GENERAL_FAILURE)
  }

  function ToByteSeq(e: Element): Result<seq<byte>> {
    match e.value
    case ByteString(b) => Ok(b)
    case BigInteger(b) => Ok(b)
    case _ => Err(GENERAL_FAILURE)
  }

  function ToEnum(e: Element): Result<int32> {
    if e.value.Enumeration? then Ok(e.value.enum) else Err(GENERAL_FAILURE)
  }
}
