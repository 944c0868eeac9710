/** Numbers, bytes and texts as they are printed in the log: each can be told from
    its text. */
module Printing {
  import opened Prelude

  function Digit(d: nat): char
    requires d < 16
  {
    if d < 10 then ('0' as int + d) as char else ('A' as int + (d - 10)) as char
  }

  predicate IsDigit(c: char) {
    '0' <= c <= '9' || 'A' <= c <= 'F'
  }

  predicate AllDigits(s: string) {
    forall i :: 0 <= i < |s| ==> IsDigit(s[i])
  }

  function Digits(n: nat): (s: string)
    ensures s != "" && AllDigits(s)
  {
    if n < 10 then [Digit(n)] else Digits(n / 10) + [Digit(n % 10)]
  }

  function Decimal(n: int): string {
    if n < 0 then "-" + Digits(-n) else Digits(n)
  }

  /** `width` hexadecimal digits. */
  function Hex(n: nat, width: nat): (s: string)
    ensures |s| == width && AllDigits(s)
  {
    if width == 0 then "" else Hex(n / 16, width - 1) + [Digit(n % 16)]
  }

  function HexBytes(bytes: seq<byte>): string {
    if bytes == [] then ""
    else
      var last := Hex(bytes[|bytes| - 1] as int, 2);
      if |bytes| == 1 then last else HexBytes(bytes[..|bytes| - 1]) + " " + last
  }

  function Escaped(c: byte): (s: string)
    ensures |s| == 1 || |s| == 2
  {
    if c == 92 then "\\\\"
    else if c == 34 then "\\\""
    else if c == 10 then "\\n"
    else if c == 13 then "\\r"
    else if c == 9 then "\\t"
    else [c as char]
  }

  function EscapedAll(text: seq<byte>): string {
    if text == [] then "" else Escaped(text[0]) + EscapedAll(text[1..])
  }

  // ---------------------------------------------------------------- splitting

  predicate Without(s: string, c: char) {
    forall i :: 0 <= i < |s| ==> s[i] != c
  }

  predicate OneLine(s: string) {
    Without(s, '\n')
  }

  /** A text is cut at the first of a character in one way only. */
  lemma SplitFirst(c: char, x: string, p: string, y: string, q: string)
    requires x + [c] + p == y + [c] + q && Without(x, c) && Without(y, c)
    ensures x == y && p == q
  {
    var s, t := x + [c] + p, y + [c] + q;
    assert s[|x|] == c && t[|y|] == c;
    assert forall i :: 0 <= i < |x| ==> s[i] == x[i];
    assert forall i :: 0 <= i < |y| ==> t[i] == y[i];
    assert |x| == |y|;
    SplitAt(x + [c], p, y + [c], q);
    SplitAt(x, [c], y, [c]);
  }

  /** And likewise at the last. */
  lemma SplitLast(c: char, x: string, p: string, y: string, q: string)
    requires x + [c] + p == y + [c] + q && Without(p, c) && Without(q, c)
    ensures x == y && p == q
  {
    var s, t := x + [c] + p, y + [c] + q;
    assert s[|x|] == c && t[|y|] == c;
    assert forall k :: |x| < k < |s| ==> s[k] == p[k - |x| - 1];
    assert forall k :: |y| < k < |t| ==> t[k] == q[k - |y| - 1];
    assert |x| == |y|;
    SplitAt(x + [c], p, y + [c], q);
    SplitAt(x, [c], y, [c]);
  }

  lemma SplitAt(x: string, p: string, y: string, q: string)
    requires x + p == y + q && |x| == |y|
    ensures x == y && p == q
  {
    assert x == (x + p)[..|x|] && y == (y + q)[..|y|];
    assert p == (x + p)[|x|..] && q == (y + q)[|y|..];
  }

  lemma Behind(head: string, p: string, q: string)
    requires head + p == head + q
    ensures p == q
  {
    SplitAt(head, p, head, q);
  }

  lemma InFront(x: string, y: string, tail: string)
    requires x + tail == y + tail
    ensures x == y
  {
    assert |x| == |y|;
    SplitAt(x, tail, y, tail);
  }

  lemma OneLineJoin(a: string, b: string)
    requires OneLine(a) && OneLine(b)
    ensures OneLine(a + b)
  {
  }

  // ------------------------------------------------------------ told apart

  lemma {:induction false} DigitsSame(a: nat, b: nat)
    requires Digits(a) == Digits(b)
    ensures a == b
  {
    var s, t := Digits(a), Digits(b);
    assert s[|s| - 1] == Digit(a % 10) && t[|t| - 1] == Digit(b % 10);
    assert a >= 10 ==> s[..|s| - 1] == Digits(a / 10);
    assert b >= 10 ==> t[..|t| - 1] == Digits(b / 10);
    if a >= 10 && b >= 10 {
      DigitsSame(a / 10, b / 10);
    }
  }

  lemma DecimalSame(a: int, b: int)
    requires Decimal(a) == Decimal(b)
    ensures a == b
  {
    assert Decimal(a)[0] == '-' <==> a < 0;
    assert Decimal(b)[0] == '-' <==> b < 0;
    if a < 0 {
      SplitAt("-", Digits(-a), "-", Digits(-b));
      DigitsSame(-a, -b);
    } else {
      DigitsSame(a, b);
    }
  }

  /** A number can be told from what follows it. */
  lemma NumberSame(a: int, p: string, b: int, q: string)
    requires Decimal(a) + p == Decimal(b) + q && p != "" && q != "" && p[0] == q[0] && !IsDigit(p[0]) && p[0] != '-'
    ensures a == b && p == q
  {
    FirstOf(Decimal(a), p);
    FirstOf(Decimal(b), q);
    SplitFirst(p[0], Decimal(a), p[1..], Decimal(b), q[1..]);
    DecimalSame(a, b);
    Behind(Decimal(a), p, q);
  }

  lemma FirstOf(x: string, p: string)
    requires p != ""
    ensures x + p == x + [p[0]] + p[1..]
  {
  }

  /** And in parentheses at the end of any text. */
  lemma ParenthesizedSame(x: string, a: int, y: string, b: int)
    requires x + (" (" + (Decimal(a) + ")")) == y + (" (" + (Decimal(b) + ")"))
    ensures a == b
  {
    Opened(x, Decimal(a) + ")");
    Opened(y, Decimal(b) + ")");
    SplitLast('(', x + " ", Decimal(a) + ")", y + " ", Decimal(b) + ")");
    NumberSame(a, ")", b, ")");
  }

  lemma Opened(x: string, p: string)
    ensures x + (" (" + p) == (x + " ") + ['('] + p
  {
  }

  function Pow16(w: nat): nat {
    if w == 0 then 1 else 16 * Pow16(w - 1)
  }

  lemma {:induction false} HexSame(a: nat, b: nat, w: nat)
    requires a < Pow16(w) && b < Pow16(w) && Hex(a, w) == Hex(b, w)
    ensures a == b
  {
    if w > 0 {
      SplitAt(Hex(a / 16, w - 1), [Digit(a % 16)], Hex(b / 16, w - 1), [Digit(b % 16)]);
      HexSame(a / 16, b / 16, w - 1);
    }
  }

  lemma {:induction false} HexBytesSame(a: seq<byte>, b: seq<byte>)
    requires |a| == |b| && HexBytes(a) == HexBytes(b)
    ensures a == b
  {
    if a != [] {
      var n := |a| - 1;
      var s, t := Hex(a[n] as int, 2), Hex(b[n] as int, 2);
      assert Pow16(2) == 256;
      if n == 0 {
        HexSame(a[n] as int, b[n] as int, 2);
      } else {
        var x, y := HexBytes(a[..n]) + " ", HexBytes(b[..n]) + " ";
        SplitAt(x, s, y, t);
        SplitAt(HexBytes(a[..n]), " ", HexBytes(b[..n]), " ");
        HexSame(a[n] as int, b[n] as int, 2);
        HexBytesSame(a[..n], b[..n]);
        assert a == a[..n] + [a[n]] && b == b[..n] + [b[n]];
      }
    }
  }

  lemma EscapedFirst(c: byte, p: string, d: byte, q: string)
    requires Escaped(c) + p == Escaped(d) + q
    ensures c == d && p == q
  {
    var s, t := Escaped(c) + p, Escaped(d) + q;
    assert s[0] == Escaped(c)[0] && t[0] == Escaped(d)[0];
    assert s[0] == '\\' <==> |Escaped(c)| == 2;
    assert t[0] == '\\' <==> |Escaped(d)| == 2;
    SplitAt(Escaped(c), p, Escaped(d), q);
    assert |Escaped(c)| == 2 ==> Escaped(c)[1] == Escaped(d)[1];
  }

  lemma {:induction false} EscapedSame(a: seq<byte>, b: seq<byte>)
    requires EscapedAll(a) == EscapedAll(b)
    ensures a == b
  {
    if a != [] && b != [] {
      EscapedFirst(a[0], EscapedAll(a[1..]), b[0], EscapedAll(b[1..]));
      EscapedSame(a[1..], b[1..]);
      assert a == [a[0]] + a[1..] && b == [b[0]] + b[1..];
    }
  }

  // --------------------------------------------------------------- on one line

  lemma DecimalLine(n: int)
    ensures OneLine(Decimal(n))
  {
  }

  lemma {:induction false} HexBytesLine(bytes: seq<byte>)
    ensures OneLine(HexBytes(bytes))
  {
    if |bytes| > 1 {
      HexBytesLine(bytes[..|bytes| - 1]);
    }
  }

  lemma {:induction false} EscapedLine(text: seq<byte>)
    ensures OneLine(EscapedAll(text))
  {
    if text != [] {
      EscapedLine(text[1..]);
      OneLineJoin(Escaped(text[0]), EscapedAll(text[1..]));
    }
  }
}
