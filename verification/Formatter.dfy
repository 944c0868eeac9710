/** The text form of a tree for the log, which leaves sensitive content out. Two
    trees have the same text exactly when they differ in what is left out only. */
module Formatter {
  import opened Prelude
  import opened Ttlv
  import opened Elements
  import opened Printing

  /** The tables of names, and the calendar. */
  datatype Tables = Tables(tag: Tag -> Option<string>, value: (Tag, int32) -> Option<string>, date: int64 -> string)

  predicate Sensitive(tag: Tag) {
    tag in {TAG_CREDENTIAL_VALUE, TAG_IV_COUNTER_NONCE, TAG_KEY_MATERIAL, TAG_KEY_VALUE, TAG_MAC_SIGNATURE,
            TAG_NONCE_VALUE, TAG_PASSWORD, TAG_SALT, TAG_SECRET_DATA, TAG_USERNAME}
  }

  // ------------------------------------------------------------ one element

  function TypeName(v: Value): string {
    match v
    case Structure(_) => "Structure"
    case Integer(_) => "Integer"
    case LongInteger(_) => "LongInteger"
    case BigInteger(_) => "BigInteger"
    case Enumeration(_) => "Enumeration"
    case Boolean(_) => "Boolean"
    case TextString(_) => "TextString"
    case ByteString(_) => "ByteString"
    case DateTime(_) => "DateTime"
    case Interval(_) => "Interval"
    case DateTimeExtended(_) => "DateTimeExtended"
  }

  function TagName(tables: Tables, tag: Tag): string {
    var name := tables.tag(tag);
    if name.Some? then name.value else "UnknownTag"
  }

  function EnumText(tables: Tables, tag: Tag, n: int32): string {
    var name := tables.value(tag, n);
    if name.Some? then name.value + (" (" + (Decimal(n) + ")"))
    else Decimal(n) + (" / 0x" + Hex(Unsigned32(n), 8))
  }

  function BytesText(bytes: seq<byte>): string {
    "len=" + (Decimal(|bytes|) + (", hex=[" + (HexBytes(bytes) + "]")))
  }

  function ValueText(tables: Tables, tag: Tag, v: Value): string
    requires !v.Structure?
  {
    match v
    case Integer(n) => Decimal(n)
    case LongInteger(n) => Decimal(n)
    case BigInteger(b) => BytesText(b)
    case Enumeration(n) => EnumText(tables, tag, n)
    case Boolean(b) => if b then "true" else "false"
    case TextString(t) => "\"" + (EscapedAll(t) + "\"")
    case ByteString(b) => BytesText(b)
    case DateTime(n) => tables.date(n) + (" (" + (Decimal(n) + ")"))
    case Interval(n) => Decimal(n)
    case DateTimeExtended(_) => "<unhandled>"
  }

  /** The length that is told of a sensitive value. */
  function ToldLength(v: Value): Option<nat> {
    match v
    case BigInteger(b) => Some(|b|)
    case TextString(t) => Some(|t|)
    case ByteString(b) => Some(|b|)
    case _ => None
  }

  function LengthText(v: Value): string {
    if ToldLength(v).Some? then ", len=" + Decimal(ToldLength(v).value) else ""
  }

  function Redacted(v: Value): string {
    "<redacted sensitive " + (TypeName(v) + (LengthText(v) + ">"))
  }

  function Content(tables: Tables, e: Element): string {
    if Sensitive(e.tag) then
      if e.value.Structure? then " = <redacted sensitive subtree>" else " = " + Redacted(e.value)
    else if e.value.Structure? then ""
    else " = " + ValueText(tables, e.tag, e.value)
  }

  function Title(tables: Tables, e: Element): string {
    TagName(tables, e.tag) + (" (0x" + (Hex(e.tag, 6) + (") [" + (TypeName(e.value) + ("]" + Content(tables, e))))))
  }

  function Indent(level: nat): (s: string)
    ensures |s| == 2 * level && forall i :: 0 <= i < |s| ==> s[i] == ' '
  {
    if level == 0 then "" else Indent(level - 1) + "  "
  }

  // --------------------------------------------------------------- the tree

  function Line(tables: Tables, e: Element, depth: nat): string {
    Indent(depth) + (Title(tables, e) + "\n")
  }

  function Format(tables: Tables, e: Element, depth: nat): string
    decreases e, 2
  {
    Line(tables, e, depth) + Below(tables, e, depth)
  }

  function EmptyLine(depth: nat): string {
    Indent(depth) + "<empty>\n"
  }

  /** The lines below the first. */
  function Below(tables: Tables, e: Element, depth: nat): string
    decreases e, 1
  {
    if Sensitive(e.tag) || !e.value.Structure? then "" else Children(tables, e.value.items, depth + 1)
  }

  function Children(tables: Tables, items: seq<Element>, depth: nat): string
    decreases items, 1
  {
    if items == [] then EmptyLine(depth) else FormatAll(tables, items, depth)
  }

  function FormatAll(tables: Tables, items: seq<Element>, depth: nat): string
    decreases items, 0
  {
    if items == [] then "" else Format(tables, items[0], depth) + FormatAll(tables, items[1..], depth)
  }

  /** Appends the text of a tree to a stream. */
  method FormatElement(tables: Tables, e: Element, out: string, depth: nat) returns (out': string)
    ensures out' == out + Format(tables, e, depth)
    decreases e
  {
    out' := out + Line(tables, e, depth);
    Joins(out, Line(tables, e, depth), Below(tables, e, depth));
    if Sensitive(e.tag) || !e.value.Structure? {
      return;
    }
    assert Below(tables, e, depth) == Children(tables, e.value.items, depth + 1);
    if e.value.items == [] {
      out' := out' + EmptyLine(depth + 1);
      return;
    }
    out' := FormatItems(tables, e.value.items, out', depth + 1);
  }

  lemma Joins(a: string, b: string, c: string)
    ensures (a + b) + c == a + (b + c)
    ensures c == "" ==> a + b == a + (b + c)
  {
  }

  lemma Nothing(s: string)
    ensures "" + s == s && s + "" == s
  {
  }

  method FormatItems(tables: Tables, items: seq<Element>, out: string, depth: nat) returns (out': string)
    ensures out' == out + FormatAll(tables, items, depth)
    decreases items
  {
    out' := out;
    for i := 0 to |items|
      invariant out' + FormatAll(tables, items[i..], depth) == out + FormatAll(tables, items, depth)
    {
      FormatNext(tables, items, i, depth);
      Joins(out', Format(tables, items[i], depth), FormatAll(tables, items[i + 1..], depth));
      out' := FormatElement(tables, items[i], out', depth);
    }
    Joins(out', "", FormatAll(tables, items[|items|..], depth));
  }

  lemma FormatNext(tables: Tables, items: seq<Element>, i: nat, depth: nat)
    requires i < |items|
    ensures FormatAll(tables, items[i..], depth) ==
            Format(tables, items[i], depth) + FormatAll(tables, items[i + 1..], depth)
  {
    assert items[i..][1..] == items[i + 1..];
  }

  // ------------------------------------------------------ what the text shows

  function Blank(n: nat): (s: seq<byte>)
    ensures |s| == n
  {
    seq(n, i => 0)
  }

  /** A value with nothing left but its type and, if it is told, its length. */
  function Blanked(v: Value): Value {
    match v
    case Structure(_) => Structure([])
    case Integer(_) => Integer(0)
    case LongInteger(_) => LongInteger(0)
    case BigInteger(b) => BigInteger(Blank(|b|))
    case Enumeration(_) => Enumeration(0)
    case Boolean(_) => Boolean(false)
    case TextString(t) => TextString(Blank(|t|))
    case ByteString(b) => ByteString(Blank(|b|))
    case DateTime(_) => DateTime(0)
    case Interval(_) => Interval(0)
    case DateTimeExtended(_) => DateTimeExtended(0)
  }

  /** The tree without its sensitive content, and without extended dates, which have
      no text form. */
  function Shown(e: Element): Element
    decreases e, 1
  {
    if Sensitive(e.tag) || e.value.DateTimeExtended? then Element(e.tag, Blanked(e.value))
    else if e.value.Structure? then Element(e.tag, Structure(ShownAll(e.value.items)))
    else e
  }

  function ShownAll(items: seq<Element>): (s: seq<Element>)
    ensures |s| == |items|
    decreases items, 0
  {
    if items == [] then [] else [Shown(items[0])] + ShownAll(items[1..])
  }

  lemma BlankedSame(v: Value)
    ensures TypeName(Blanked(v)) == TypeName(v) && ToldLength(Blanked(v)) == ToldLength(v)
    ensures Redacted(Blanked(v)) == Redacted(v) && (Blanked(v).Structure? <==> v.Structure?)
  {
  }

  lemma TitleShown(tables: Tables, e: Element)
    ensures Title(tables, Shown(e)) == Title(tables, e)
  {
    BlankedSame(e.value);
    assert Shown(e).tag == e.tag && TypeName(Shown(e).value) == TypeName(e.value);
    assert Content(tables, Shown(e)) == Content(tables, e);
  }

  /** Nothing else is looked at: the text is that of the tree as it is shown. */
  lemma {:induction false} FormatShown(tables: Tables, e: Element, depth: nat)
    ensures Format(tables, Shown(e), depth) == Format(tables, e, depth)
    decreases e, 1
  {
    TitleShown(tables, e);
    if !Sensitive(e.tag) && e.value.Structure? {
      var items := e.value.items;
      FormatAllShown(tables, items, depth + 1);
      assert Below(tables, e, depth) == Children(tables, items, depth + 1);
      assert Below(tables, Shown(e), depth) == Children(tables, ShownAll(items), depth + 1);
    }
  }

  lemma {:induction false} FormatAllShown(tables: Tables, items: seq<Element>, depth: nat)
    ensures FormatAll(tables, ShownAll(items), depth) == FormatAll(tables, items, depth)
    decreases items, 0
  {
    if items != [] {
      FormatShown(tables, items[0], depth);
      FormatAllShown(tables, items[1..], depth);
      assert ShownAll(items)[1..] == ShownAll(items[1..]);
    }
  }

  // --------------------------------------------------- and that it shows it

  /** Tables whose tag names are words, and whose other names are lines. */
  ghost predicate Proper(tables: Tables) {
    && (forall t :: tables.tag(t).Some? ==> Word(tables.tag(t).value))
    && (forall t, n :: tables.value(t, n).Some? ==> OneLine(tables.value(t, n).value))
    && forall n :: OneLine(tables.date(n))
  }

  predicate Word(s: string) {
    s != "" && s[0] != '<' && OneLine(s) && Without(s, ' ')
  }

  lemma TagNameIsWord(tables: Tables, tag: Tag)
    requires Proper(tables)
    ensures Word(TagName(tables, tag))
  {
  }

  lemma TypeNameSame(v: Value, w: Value)
    requires TypeName(v) == TypeName(w)
    ensures TypeCode(v) == TypeCode(w)
  {
    assert |TypeName(v)| == |TypeName(w)| && TypeName(v)[0] == TypeName(w)[0] && TypeName(v)[2] == TypeName(w)[2];
  }

  /** Letters only. */
  predicate Letters(s: string) {
    forall i :: 0 <= i < |s| ==> 'A' <= s[i] <= 'Z' || 'a' <= s[i] <= 'z'
  }

  lemma TypeNameLetters(v: Value)
    ensures Letters(TypeName(v))
  {
  }

  lemma TypeNameLine(v: Value)
    ensures OneLine(TypeName(v)) && Without(TypeName(v), ']')
  {
    TypeNameLetters(v);
  }

  lemma EnumSame(tables: Tables, tag: Tag, a: int32, b: int32)
    requires EnumText(tables, tag, a) == EnumText(tables, tag, b)
    ensures a == b
  {
    EnumEnd(tables, tag, a);
    EnumEnd(tables, tag, b);
    if tables.value(tag, a).Some? {
      ParenthesizedSame(tables.value(tag, a).value, a, tables.value(tag, b).value, b);
    } else {
      NumberSame(a, " / 0x" + Hex(Unsigned32(a), 8), b, " / 0x" + Hex(Unsigned32(b), 8));
    }
  }

  lemma EnumEnd(tables: Tables, tag: Tag, n: int32)
    ensures var s := EnumText(tables, tag, n);
            s != "" && (s[|s| - 1] == ')' <==> tables.value(tag, n).Some?)
  {
    if tables.value(tag, n).None? {
      var s, hex := EnumText(tables, tag, n), Hex(Unsigned32(n), 8);
      assert s[|s| - 1] == hex[7];
    }
  }

  lemma BytesSame(a: seq<byte>, b: seq<byte>)
    requires BytesText(a) == BytesText(b)
    ensures a == b
  {
    var p, q := HexBytes(a) + "]", HexBytes(b) + "]";
    Behind("len=", Decimal(|a|) + (", hex=[" + p), Decimal(|b|) + (", hex=[" + q));
    NumberSame(|a|, ", hex=[" + p, |b|, ", hex=[" + q);
    Behind(", hex=[", p, q);
    InFront(HexBytes(a), HexBytes(b), "]");
    HexBytesSame(a, b);
  }

  lemma TextSame(a: seq<byte>, b: seq<byte>)
    requires "\"" + (EscapedAll(a) + "\"") == "\"" + (EscapedAll(b) + "\"")
    ensures a == b
  {
    Behind("\"", EscapedAll(a) + "\"", EscapedAll(b) + "\"");
    InFront(EscapedAll(a), EscapedAll(b), "\"");
    EscapedSame(a, b);
  }

  lemma ValueSame(tables: Tables, tag: Tag, v: Value, w: Value)
    requires TypeCode(v) == TypeCode(w) && !v.Structure? && ValueText(tables, tag, v) == ValueText(tables, tag, w)
    ensures v == w || (v.DateTimeExtended? && w.DateTimeExtended?)
  {
    match v
    case Integer(n) => DecimalSame(n, w.integer);
    case LongInteger(n) => DecimalSame(n, w.long);
    case BigInteger(b) => BytesSame(b, w.big);
    case Enumeration(n) => EnumSame(tables, tag, n, w.enum);
    case Boolean(b) => assert ValueText(tables, tag, v)[0] == ValueText(tables, tag, w)[0];
    case TextString(t) => TextSame(t, w.text);
    case ByteString(b) => BytesSame(b, w.bytes);
    case DateTime(n) => ParenthesizedSame(tables.date(n), n, tables.date(w.time), w.time);
    case Interval(n) => DecimalSame(n, w.seconds);
    case DateTimeExtended(_) =>
  }

  lemma RedactedSame(v: Value, w: Value)
    requires TypeCode(v) == TypeCode(w) && Redacted(v) == Redacted(w)
    ensures Blanked(v) == Blanked(w)
  {
    assert TypeName(v) == TypeName(w);
    Behind("<redacted sensitive ", TypeName(v) + (LengthText(v) + ">"), TypeName(w) + (LengthText(w) + ">"));
    Behind(TypeName(v), LengthText(v) + ">", LengthText(w) + ">");
    InFront(LengthText(v), LengthText(w), ">");
    if ToldLength(v).Some? {
      Behind(", len=", Decimal(ToldLength(v).value), Decimal(ToldLength(w).value));
      DecimalSame(ToldLength(v).value, ToldLength(w).value);
    }
  }

  lemma ContentSame(tables: Tables, a: Element, b: Element)
    requires a.tag == b.tag && TypeCode(a.value) == TypeCode(b.value) && Content(tables, a) == Content(tables, b)
    ensures Sensitive(a.tag) || !a.value.Structure? ==> Shown(a) == Shown(b)
  {
    if Sensitive(a.tag) {
      if !a.value.Structure? {
        Behind(" = ", Redacted(a.value), Redacted(b.value));
        RedactedSame(a.value, b.value);
      }
    } else if !a.value.Structure? {
      Behind(" = ", ValueText(tables, a.tag, a.value), ValueText(tables, a.tag, b.value));
      ValueSame(tables, a.tag, a.value, b.value);
    }
  }

  /** The end of a title, behind the tag. */
  function TypeAndContent(tables: Tables, e: Element): string {
    TypeName(e.value) + ("]" + Content(tables, e))
  }

  /** A title tells the tag, the type and what is shown of the content. */
  lemma TitleSame(tables: Tables, a: Element, b: Element)
    requires Proper(tables) && Title(tables, a) == Title(tables, b)
    ensures a.tag == b.tag && TypeCode(a.value) == TypeCode(b.value)
    ensures Sensitive(a.tag) || !a.value.Structure? ==> Shown(a) == Shown(b)
  {
    TagNameIsWord(tables, a.tag);
    TagNameIsWord(tables, b.tag);
    var s, t := TypeAndContent(tables, a), TypeAndContent(tables, b);
    TagSame(TagName(tables, a.tag), a.tag, s, TagName(tables, b.tag), b.tag, t);
    TypeNameLine(a.value);
    TypeNameLine(b.value);
    TypeEnd(TypeName(a.value), Content(tables, a), TypeName(b.value), Content(tables, b));
    TypeNameSame(a.value, b.value);
    ContentSame(tables, a, b);
  }

  lemma TagSame(x: string, a: Tag, p: string, y: string, b: Tag, q: string)
    requires Without(x, ' ') && Without(y, ' ')
    requires x + (" (0x" + (Hex(a, 6) + (") [" + p))) == y + (" (0x" + (Hex(b, 6) + (") [" + q)))
    ensures a == b && p == q
  {
    var s, t := Hex(a, 6) + (") [" + p), Hex(b, 6) + (") [" + q);
    WordEnd(x, s);
    WordEnd(y, t);
    SplitFirst(' ', x, "(0x" + s, y, "(0x" + t);
    Behind("(0x", s, t);
    SplitAt(Hex(a, 6), ") [" + p, Hex(b, 6), ") [" + q);
    Behind(") [", p, q);
    assert Pow16(2) == 0x100 && Pow16(4) == 0x1_0000 && Pow16(6) == 0x100_0000;
    HexSame(a, b, 6);
  }

  lemma WordEnd(x: string, s: string)
    ensures x + (" (0x" + s) == x + [' '] + ("(0x" + s)
  {
  }

  lemma TypeEnd(x: string, p: string, y: string, q: string)
    requires Without(x, ']') && Without(y, ']') && x + ("]" + p) == y + ("]" + q)
    ensures x == y && p == q
  {
    assert x + ("]" + p) == x + [']'] + p && y + ("]" + q) == y + [']'] + q;
    SplitFirst(']', x, p, y, q);
  }

  // --------------------------------------------------------------- the lines

  lemma EnumLine(tables: Tables, tag: Tag, n: int32)
    requires Proper(tables)
    ensures OneLine(EnumText(tables, tag, n))
  {
    DecimalLine(n);
  }

  lemma ValueLine(tables: Tables, tag: Tag, v: Value)
    requires Proper(tables) && !v.Structure?
    ensures OneLine(ValueText(tables, tag, v))
  {
    match v
    case Integer(n) => DecimalLine(n);
    case LongInteger(n) => DecimalLine(n);
    case BigInteger(b) => BytesLine(b);
    case Enumeration(n) => EnumLine(tables, tag, n);
    case Boolean(b) =>
    case TextString(t) => EscapedLine(t);
    case ByteString(b) => BytesLine(b);
    case DateTime(n) => DecimalLine(n);
    case Interval(n) => DecimalLine(n);
    case DateTimeExtended(_) =>
  }

  lemma BytesLine(bytes: seq<byte>)
    ensures OneLine(BytesText(bytes))
  {
    DecimalLine(|bytes|);
    HexBytesLine(bytes);
  }

  lemma ContentLine(tables: Tables, e: Element)
    requires Proper(tables)
    ensures OneLine(Content(tables, e))
  {
    if Sensitive(e.tag) && !e.value.Structure? {
      TypeNameLine(e.value);
      if ToldLength(e.value).Some? {
        DecimalLine(ToldLength(e.value).value);
      }
      OneLineJoin(LengthText(e.value), ">");
      OneLineJoin(TypeName(e.value), LengthText(e.value) + ">");
      OneLineJoin("<redacted sensitive ", TypeName(e.value) + (LengthText(e.value) + ">"));
    } else if !Sensitive(e.tag) && !e.value.Structure? {
      ValueLine(tables, e.tag, e.value);
    }
  }

  lemma TitleLine(tables: Tables, e: Element)
    requires Proper(tables)
    ensures OneLine(Title(tables, e)) && Title(tables, e) != "" && Title(tables, e)[0] !in {' ', '<'}
  {
    TagNameIsWord(tables, e.tag);
    TypeNameLine(e.value);
    ContentLine(tables, e);
    var s := TypeAndContent(tables, e);
    OneLineJoin("]", Content(tables, e));
    OneLineJoin(TypeName(e.value), "]" + Content(tables, e));
    OneLineJoin(") [", s);
    OneLineJoin(Hex(e.tag, 6), ") [" + s);
    OneLineJoin(" (0x", Hex(e.tag, 6) + (") [" + s));
    OneLineJoin(TagName(tables, e.tag), " (0x" + (Hex(e.tag, 6) + (") [" + s)));
  }

  /** The text is empty, or its first line is indented by less than `n`. */
  predicate Shallow(text: string, n: nat) {
    text == "" || exists i :: 0 <= i < n && i < |text| && text[i] != ' '
  }

  /** A text whose first line is indented by `n` and goes on with `c`. */
  predicate Starts(text: string, n: nat, c: char) {
    n < |text| && text[n] == c && forall i :: 0 <= i < n ==> text[i] == ' '
  }

  lemma IndentStarts(level: nat, text: string)
    requires text != ""
    ensures Starts(Indent(level) + text, 2 * level, text[0])
  {
  }

  lemma StartsShallow(text: string, n: nat, c: char)
    requires Starts(text, n, c) && c != ' '
    ensures Shallow(text, n + 1) && !Shallow(text, n)
  {
    assert text[n] != ' ';
  }

  /** The text of a tree is its title, a newline and the rest, behind the indent. */
  lemma FormatIs(tables: Tables, e: Element, depth: nat, rest: string)
    ensures Format(tables, e, depth) + rest ==
            Indent(depth) + (Title(tables, e) + ['\n'] + (Below(tables, e, depth) + rest))
  {
    var title, below := Title(tables, e), Below(tables, e, depth);
    Joins(Line(tables, e, depth), below, rest);
    Joins(Indent(depth), title + "\n", below + rest);
  }

  lemma FormatStarts(tables: Tables, e: Element, depth: nat, rest: string)
    requires Proper(tables)
    ensures Starts(Format(tables, e, depth) + rest, 2 * depth, Title(tables, e)[0])
    ensures Title(tables, e) != "" && Title(tables, e)[0] !in {' ', '<'}
  {
    TitleLine(tables, e);
    FormatIs(tables, e, depth, rest);
    IndentStarts(depth, Title(tables, e) + ['\n'] + (Below(tables, e, depth) + rest));
  }

  /** So the tree, as it is shown, can be told from its text, whatever follows that
      is indented no deeper. */
  lemma {:induction false} FormatSame(tables: Tables, a: Element, b: Element, depth: nat, r: string, s: string)
    requires Proper(tables) && Format(tables, a, depth) + r == Format(tables, b, depth) + s
    requires Shallow(r, 2 * depth + 1) && Shallow(s, 2 * depth + 1)
    ensures Shown(a) == Shown(b) && r == s
    decreases a, 2
  {
    FormatIs(tables, a, depth, r);
    FormatIs(tables, b, depth, s);
    var p, q := Below(tables, a, depth) + r, Below(tables, b, depth) + s;
    Behind(Indent(depth), Title(tables, a) + ['\n'] + p, Title(tables, b) + ['\n'] + q);
    TitleLine(tables, a);
    TitleLine(tables, b);
    SplitFirst('\n', Title(tables, a), p, Title(tables, b), q);
    TitleSame(tables, a, b);
    if Sensitive(a.tag) || !a.value.Structure? {
      Nothing(r);
      Nothing(s);
    } else {
      Shallower(r, 2 * depth + 1);
      Shallower(s, 2 * depth + 1);
      ChildrenSame(tables, a.value.items, b.value.items, depth + 1, r, s);
    }
  }

  lemma {:induction false} ChildrenSame(tables: Tables, xs: seq<Element>, ys: seq<Element>, depth: nat, r: string,
                                        s: string)
    requires Proper(tables) && Children(tables, xs, depth) + r == Children(tables, ys, depth) + s
    requires Shallow(r, 2 * depth) && Shallow(s, 2 * depth)
    ensures ShownAll(xs) == ShownAll(ys) && r == s
    decreases xs, 1
  {
    if xs == [] {
      if ys == [] {
        Behind(EmptyLine(depth), r, s);
      } else {
        NotEmpty(tables, ys, depth, r, s);
      }
    } else if ys == [] {
      NotEmpty(tables, xs, depth, s, r);
    } else {
      FormatAllSame(tables, xs, ys, depth, r, s);
    }
  }

  lemma Shallower(text: string, n: nat)
    requires Shallow(text, n)
    ensures Shallow(text, n + 1)
  {
  }

  lemma NotEmpty(tables: Tables, items: seq<Element>, depth: nat, r: string, s: string)
    requires Proper(tables) && items != []
    ensures EmptyLine(depth) + r != FormatAll(tables, items, depth) + s
  {
    var empty := "<empty>\n" + r;
    Joins(Indent(depth), "<empty>\n", r);
    IndentStarts(depth, empty);
    var rest := FormatAll(tables, items[1..], depth);
    FormatStarts(tables, items[0], depth, rest + s);
    Joins(Format(tables, items[0], depth), rest, s);
  }

  lemma {:induction false} FormatAllSame(tables: Tables, xs: seq<Element>, ys: seq<Element>, depth: nat, r: string,
                                         s: string)
    requires Proper(tables) && FormatAll(tables, xs, depth) + r == FormatAll(tables, ys, depth) + s
    requires Shallow(r, 2 * depth) && Shallow(s, 2 * depth)
    ensures ShownAll(xs) == ShownAll(ys) && r == s
    decreases xs, 0
  {
    if xs == [] && ys == [] {
      Nothing(r);
      Nothing(s);
    } else if xs == [] {
      NotShallow(tables, ys, depth, s);
      Nothing(r);
    } else if ys == [] {
      NotShallow(tables, xs, depth, r);
      Nothing(s);
    } else {
      var p, q := FormatAll(tables, xs[1..], depth), FormatAll(tables, ys[1..], depth);
      Joins(Format(tables, xs[0], depth), p, r);
      Joins(Format(tables, ys[0], depth), q, s);
      NextShallow(tables, xs[1..], depth, r);
      NextShallow(tables, ys[1..], depth, s);
      FormatSame(tables, xs[0], ys[0], depth, p + r, q + s);
      FormatAllSame(tables, xs[1..], ys[1..], depth, r, s);
    }
  }

  lemma NotShallow(tables: Tables, items: seq<Element>, depth: nat, rest: string)
    requires Proper(tables) && items != []
    ensures !Shallow(FormatAll(tables, items, depth) + rest, 2 * depth)
    ensures Shallow(FormatAll(tables, items, depth) + rest, 2 * depth + 1)
  {
    var after := FormatAll(tables, items[1..], depth);
    FormatStarts(tables, items[0], depth, after + rest);
    Joins(Format(tables, items[0], depth), after, rest);
    StartsShallow(FormatAll(tables, items, depth) + rest, 2 * depth, Title(tables, items[0])[0]);
  }

  lemma NextShallow(tables: Tables, items: seq<Element>, depth: nat, rest: string)
    requires Proper(tables) && Shallow(rest, 2 * depth)
    ensures Shallow(FormatAll(tables, items, depth) + rest, 2 * depth + 1)
  {
    if items == [] {
      Nothing(rest);
    } else {
      NotShallow(tables, items, depth, rest);
    }
  }

  /** Two trees have the same text exactly when they are shown as the same tree. */
  lemma SameText(tables: Tables, a: Element, b: Element)
    requires Proper(tables)
    ensures Format(tables, a, 0) == Format(tables, b, 0) <==> Shown(a) == Shown(b)
  {
    FormatShown(tables, a, 0);
    FormatShown(tables, b, 0);
    if Format(tables, a, 0) == Format(tables, b, 0) {
      Nothing(Format(tables, a, 0));
      Nothing(Format(tables, b, 0));
      FormatSame(tables, a, b, 0, "", "");
    }
  }
}
