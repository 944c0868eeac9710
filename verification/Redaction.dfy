/** What the log keeps to itself, said of the trees and tag by tag. */
module Redaction {
  import opened Prelude
  import opened Ttlv
  import opened Elements
  import opened Printing
  import opened Formatter
  import opened Protocol
  import Keys
  import TtlvCodec
  import TtlvLog

  /** Credential Value, IV/Counter/Nonce, Key Material, Key Value, MAC/Signature, Nonce
      Value, Password, Salt, Secret Data and Username. */
  predicate Hidden(tag: Tag) {
    tag in {0x420025, 0x42003D, 0x420043, 0x420045, 0x42004D, 0x4200CA, 0x4200A1, 0x420084, 0x420085, 0x420099}
  }

  /** Values of one type and, if it has a length of its own, of one length. */
  predicate SameShape(v: Value, w: Value) {
    match v
    case Structure(_) => w.Structure?
    case Integer(_) => w.Integer?
    case LongInteger(_) => w.LongInteger?
    case BigInteger(b) => w.BigInteger? && |w.big| == |b|
    case Enumeration(_) => w.Enumeration?
    case Boolean(_) => w.Boolean?
    case TextString(t) => w.TextString? && |w.text| == |t|
    case ByteString(b) => w.ByteString? && |w.bytes| == |b|
    case DateTime(_) => w.DateTime?
    case Interval(_) => w.Interval?
    case DateTimeExtended(_) => w.DateTimeExtended?
  }

  /** Trees that differ in hidden values and extended dates only. */
  predicate Alike(a: Element, b: Element)
    decreases a, 1
  {
    && a.tag == b.tag
    && if Hidden(a.tag) || a.value.DateTimeExtended? then SameShape(a.value, b.value)
       else if a.value.Structure? then b.value.Structure? && AllAlike(a.value.items, b.value.items)
       else a.value == b.value
  }

  predicate AllAlike(xs: seq<Element>, ys: seq<Element>)
    decreases xs, 0
  {
    |xs| == |ys| && forall i :: 0 <= i < |xs| ==> Alike(xs[i], ys[i])
  }

  lemma SameShapeBlanked(v: Value, w: Value)
    ensures SameShape(v, w) <==> Blanked(v) == Blanked(w)
  {
    if Blanked(v) == Blanked(w) {
      BlankedSame(v);
      BlankedSame(w);
    }
  }

  /** Such trees are shown as the same, and no others are. */
  lemma {:induction false} AlikeExactly(a: Element, b: Element)
    ensures Alike(a, b) <==> Shown(a) == Shown(b)
    decreases a, 1
  {
    SameShapeBlanked(a.value, b.value);
    if a.value.Structure? && b.value.Structure? {
      AllAlikeExactly(a.value.items, b.value.items);
    }
  }

  lemma {:induction false} AllAlikeExactly(xs: seq<Element>, ys: seq<Element>)
    ensures AllAlike(xs, ys) <==> ShownAll(xs) == ShownAll(ys)
    decreases xs, 0
  {
    if |xs| != |ys| {
      assert ShownAll(xs) != ShownAll(ys);
    } else if xs != [] {
      AlikeExactly(xs[0], ys[0]);
      AllAlikeExactly(xs[1..], ys[1..]);
      AllAlikeFirst(xs, ys);
      assert ShownAll(xs)[0] == Shown(xs[0]) && ShownAll(xs)[1..] == ShownAll(xs[1..]);
      assert ShownAll(ys)[0] == Shown(ys[0]) && ShownAll(ys)[1..] == ShownAll(ys[1..]);
    }
  }

  lemma AllAlikeFirst(xs: seq<Element>, ys: seq<Element>)
    requires |xs| == |ys| && xs != []
    ensures AllAlike(xs, ys) <==> Alike(xs[0], ys[0]) && AllAlike(xs[1..], ys[1..])
  {
    if AllAlike(xs[1..], ys[1..]) && Alike(xs[0], ys[0]) {
      forall i | 0 <= i < |xs|
        ensures Alike(xs[i], ys[i])
      {
        assert i > 0 ==> xs[i] == xs[1..][i - 1] && ys[i] == ys[1..][i - 1];
      }
    }
  }

  /** Two trees have the same text exactly when they differ in hidden values only. */
  lemma SameTextExactly(tables: Tables, a: Element, b: Element)
    requires Proper(tables)
    ensures Format(tables, a, 0) == Format(tables, b, 0) <==> Alike(a, b)
  {
    SameText(tables, a, b);
    AlikeExactly(a, b);
  }

  /** And so do two messages in bytes, behind which as many bytes are left. */
  lemma SameLogExactly(tables: Tables, x: seq<byte>, y: seq<byte>)
    requires Proper(tables) && TtlvCodec.Decode(x, 0).Some? && TtlvCodec.Decode(y, 0).Some?
    ensures var a, b := TtlvCodec.Decode(x, 0).value, TtlvCodec.Decode(y, 0).value;
            TtlvLog.TtlvText(tables, x) == TtlvLog.TtlvText(tables, y) <==>
            Alike(a, b) && TtlvLog.LeftBehind(x, a) == TtlvLog.LeftBehind(y, b)
  {
    TtlvLog.SameLog(tables, x, y);
    AlikeExactly(TtlvCodec.Decode(x, 0).value, TtlvCodec.Decode(y, 0).value);
  }

  // ------------------------------------------------------ what no text tells

  /** Trees that are the same, but for what is below a Key Value or a Credential Value. */
  predicate SecretsAside(a: Element, b: Element)
    decreases a
  {
    || a == b
    || (&& a.tag == b.tag && a.value.Structure? && b.value.Structure?
        && (|| a.tag == 0x420045 || a.tag == 0x420025
            || (&& |a.value.items| == |b.value.items|
                && forall i :: 0 <= i < |a.value.items| ==> SecretsAside(a.value.items[i], b.value.items[i]))))
  }

  lemma {:induction false} AlikeItself(e: Element)
    ensures Alike(e, e)
  {
    AlikeExactly(e, e);
  }

  lemma {:induction false} AsideAlike(a: Element, b: Element)
    requires SecretsAside(a, b)
    ensures Alike(a, b)
    decreases a
  {
    if a == b {
      AlikeItself(a);
    } else if !Hidden(a.tag) {
      forall i | 0 <= i < |a.value.items|
        ensures Alike(a.value.items[i], b.value.items[i])
      {
        AsideAlike(a.value.items[i], b.value.items[i]);
      }
    }
  }

  /** Nothing below a Key Value or a Credential Value tells in the text: not the key, its
      attributes or its length, not the user name or the password. */
  lemma SecretsAreNotTold(tables: Tables, a: Element, b: Element)
    requires SecretsAside(a, b)
    ensures Format(tables, a, 0) == Format(tables, b, 0)
  {
    AsideAlike(a, b);
    AlikeExactly(a, b);
    FormatShown(tables, a, 0);
    FormatShown(tables, b, 0);
  }

  /** The key block of a key reads the same whatever the key. */
  lemma KeysAreNotTold(tables: Tables, format: int32, pair: Option<Keys.Pair>, key: seq<byte>, other: seq<byte>)
    ensures Format(tables, Keys.KeyBlock(format, key, pair), 0) == Format(tables, Keys.KeyBlock(format, other, pair), 0)
  {
    var a, b := Keys.KeyBlock(format, key, pair), Keys.KeyBlock(format, other, pair);
    Keys.BlockTree(format, key, pair);
    Keys.BlockTree(format, other, pair);
    SecondAside(a, b);
    SecretsAreNotTold(tables, a, b);
  }

  lemma SecondAside(a: Element, b: Element)
    requires a.tag == b.tag && a.value.Structure? && b.value.Structure?
    requires 1 < |a.value.items| == |b.value.items|
    requires forall i :: 0 <= i < |a.value.items| && i != 1 ==> a.value.items[i] == b.value.items[i]
    requires SecretsAside(a.value.items[1], b.value.items[1])
    ensures SecretsAside(a, b)
  {
  }

  predicate FieldAside(f: Option<Element>, g: Option<Element>) {
    f == g || (f.Some? && g.Some? && SecretsAside(f.value, g.value))
  }

  lemma {:induction false} FieldsAside(fs: seq<Option<Element>>, gs: seq<Option<Element>>)
    requires |fs| == |gs|
    requires forall i :: 0 <= i < |fs| ==> FieldAside(fs[i], gs[i])
    ensures |Fields(fs)| == |Fields(gs)|
    ensures forall i :: 0 <= i < |Fields(fs)| ==> SecretsAside(Fields(fs)[i], Fields(gs)[i])
    decreases fs
  {
    if fs != [] {
      FieldsAside(fs[1..], gs[1..]);
    }
  }

  /** A request reads the same whoever sends it, with whatever password. */
  lemma CredentialsAreNotTold(tables: Tables, r: Request, user: Option<seq<byte>>, password: Option<seq<byte>>)
    requires r.header.userName.Some? || r.header.password.Some?
    requires user.Some? || password.Some?
    ensures var other := r.(header := r.header.(userName := user, password := password));
            Format(tables, RequestElement(r), 0) == Format(tables, RequestElement(other), 0)
  {
    var other := r.(header := r.header.(userName := user, password := password));
    HeadersAside(r.header, other.header);
    FirstAside(0x420078, RequestHeaderElement(r.header), RequestHeaderElement(other.header),
               RequestItemElements(r.items));
    SecretsAreNotTold(tables, RequestElement(r), RequestElement(other));
  }

  lemma FirstAside(tag: Tag, x: Element, y: Element, rest: seq<Element>)
    requires SecretsAside(x, y)
    ensures SecretsAside(Element(tag, Structure([x] + rest)), Element(tag, Structure([y] + rest)))
  {
    var xs, ys := [x] + rest, [y] + rest;
    assert forall i :: 1 <= i < |xs| ==> xs[i] == ys[i];
  }

  lemma HeadersAside(h: RequestHeader, k: RequestHeader)
    requires (h.userName.Some? || h.password.Some?) && (k.userName.Some? || k.password.Some?)
    requires k == h.(userName := k.userName, password := k.password)
    ensures SecretsAside(RequestHeaderElement(h), RequestHeaderElement(k))
  {
    var fs, gs := RequestHeaderFields(h), RequestHeaderFields(k);
    AuthenticationAside(h.userName, h.password, k.userName, k.password);
    assert fs == gs[4 := fs[4]] && fs[4].Some? && gs[4].Some?;
    FieldsAside(fs, gs);
  }

  lemma AuthenticationAside(user: Option<seq<byte>>, password: Option<seq<byte>>, user': Option<seq<byte>>,
                            password': Option<seq<byte>>)
    requires (user.Some? || password.Some?) && (user'.Some? || password'.Some?)
    ensures SecretsAside(AuthenticationField(user, password).value, AuthenticationField(user', password').value)
  {
    var a, b := AuthenticationField(user, password).value, AuthenticationField(user', password').value;
    var c, d := a.value.items[0], b.value.items[0];
    assert SecretsAside(c.value.items[1], d.value.items[1]);
    assert SecretsAside(c, d);
  }
}
