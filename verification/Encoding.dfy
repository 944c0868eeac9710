/** Base64 (RFC 4648 section 4, with the canonical-bits rule of section 3.5)
    and hexadecimal text. Characters are bytes, as in the source. */
module Encoding {
  import opened Prelude

  type Text = seq<byte>
  type sextet = v: int | 0 <= v < 64

  const PAD: byte := 61 // '='

  // ------------------------------------------------------------ the alphabet

  /** The character for a six-bit value: A-Z, a-z, 0-9, +, /. */
  function Symbol(v: nat): (c: byte)
    requires v < 64
    ensures c != PAD && !IsWhitespace(c)
  {
    if v < 26 then (65 + v) as byte
    else if v < 52 then (97 + (v - 26)) as byte
    else if v < 62 then (48 + (v - 52)) as byte
    else if v == 62 then 43
    else 47
  }

  /** The lookup table: a character's value, or -1. */
  function Lookup(c: byte): (v: int)
    ensures -1 <= v < 64
  {
    if 65 <= c <= 90 then c as int - 65
    else if 97 <= c <= 122 then c as int - 97 + 26
    else if 48 <= c <= 57 then c as int - 48 + 52
    else if c == 43 then 62
    else if c == 47 then 63
    else -1
  }

  lemma LookupSymbol(v: nat)
    requires v < 64
    ensures Lookup(Symbol(v)) == v
  {
  }

  lemma SymbolLookup(c: byte)
    requires Lookup(c) != -1
    ensures Symbol(Lookup(c)) == c
  {
  }

  predicate IsWhitespace(c: byte) {
    c == 32 || c == 9 || c == 13 || c == 10
  }

  /** The text without its whitespace. */
  function Strip(s: Text): (t: Text)
    ensures forall c :: c in t ==> !IsWhitespace(c)
    ensures |t| <= |s|
  {
    if s == [] then []
    else
      var init, last := Strip(s[..|s| - 1]), s[|s| - 1];
      if IsWhitespace(last) then init else init + [last]
  }

  lemma {:induction false} StripNothing(s: Text)
    requires forall c :: c in s ==> !IsWhitespace(c)
    ensures Strip(s) == s
  {
    if s != [] {
      StripNothing(s[..|s| - 1]);
      assert s[..|s| - 1] + [s[|s| - 1]] == s;
    }
  }

  // ---------------------------------------------------------- what Base64 is

  /** Byte `i`, or zero past the end. */
  function At(b: seq<byte>, i: nat): (n: nat)
    ensures n < 256
  {
    if i < |b| then b[i] as int else 0
  }

  /** Slice `r` of the four in which group `g` of three bytes is cut. */
  function Slice(b: seq<byte>, g: nat, r: nat): sextet {
    if r == 0 then At(b, 3 * g) / 4
    else if r == 1 then At(b, 3 * g) % 4 * 16 + At(b, 3 * g + 1) / 16
    else if r == 2 then At(b, 3 * g + 1) % 16 * 4 + At(b, 3 * g + 2) / 64
    else At(b, 3 * g + 2) % 64
  }

  /** The `j`-th six-bit slice of the bytes, zero-extended. */
  function Sextet(b: seq<byte>, j: nat): sextet {
    Slice(b, j / 4, j % 4)
  }

  /** Character `j` of the encoding: a slice that still holds data, or padding. */
  function Base64At(b: seq<byte>, j: nat): (c: byte)
    ensures !IsWhitespace(c) && (c == PAD <==> 6 * j >= 8 * |b|)
  {
    if 6 * j >= 8 * |b| then PAD else Symbol(Sextet(b, j))
  }

  /** Four characters for every three bytes begun. */
  function Base64Length(n: nat): nat {
    (n + 2) / 3 * 4
  }

  function Base64(b: seq<byte>): (t: Text)
    ensures |t| == Base64Length(|b|) && forall j :: 0 <= j < |t| ==> t[j] == Base64At(b, j)
  {
    seq(Base64Length(|b|), j requires 0 <= j => Base64At(b, j))
  }

  // ----------------------------------------------------------------- encoder

  /** The characters of one group, from the 24 bits it starts with. */
  lemma Group(b: seq<byte>, g: nat, n: nat)
    requires 3 * g < |b| && n == At(b, 3 * g) * 0x1_0000 + At(b, 3 * g + 1) * 0x100 + At(b, 3 * g + 2)
    ensures Base64At(b, 4 * g) == Symbol(n / 0x4_0000 % 64)
    ensures Base64At(b, 4 * g + 1) == Symbol(n / 0x1000 % 64)
    ensures Base64At(b, 4 * g + 2) == if 3 * g + 1 < |b| then Symbol(n / 64 % 64) else PAD
    ensures Base64At(b, 4 * g + 3) == if 3 * g + 2 < |b| then Symbol(n % 64) else PAD
  {
    SextetIs(b, g, 0);
    SextetIs(b, g, 1);
    SextetIs(b, g, 2);
    SextetIs(b, g, 3);
    Slices(At(b, 3 * g), At(b, 3 * g + 1), At(b, 3 * g + 2));
  }

  lemma SextetIs(b: seq<byte>, g: nat, r: nat)
    requires r < 4
    ensures Sextet(b, 4 * g + r) == Slice(b, g, r)
  {
  }

  /** The four six-bit slices of three bytes. */
  lemma Slices(x: nat, y: nat, z: nat)
    requires x < 256 && y < 256 && z < 256
    ensures var n := x * 0x1_0000 + y * 0x100 + z;
            && n / 0x4_0000 % 64 == x / 4
            && n / 0x1000 % 64 == x % 4 * 16 + y / 16
            && n / 64 % 64 == y % 16 * 4 + z / 64
            && n % 64 == z % 64
  {
    var n := x * 0x1_0000 + y * 0x100 + z;
    var a, b, c, d := x / 4, x % 4 * 16 + y / 16, y % 16 * 4 + z / 64, z % 64;
    assert n == ((a * 64 + b) * 64 + c) * 64 + d;
    Digits(a, b, c, d, n);
  }

  lemma Digits(a: nat, b: nat, c: nat, d: nat, n: nat)
    requires a < 64 && b < 64 && c < 64 && d < 64 && n == ((a * 64 + b) * 64 + c) * 64 + d
    ensures n / 0x4_0000 % 64 == a && n / 0x1000 % 64 == b && n / 64 % 64 == c && n % 64 == d
  {
  }

  /** The first `g` groups are written. */
  ghost predicate Written(b: seq<byte>, g: nat, out: Text) {
    |out| == 4 * g && forall j :: 0 <= j < |out| ==> out[j] == Base64At(b, j)
  }

  /** Three bytes at a time, then the one or two that remain. */
  method ToBase64(bytes: seq<byte>) returns (out: Text)
    ensures out == Base64(bytes)
  {
    out := [];
    var i := 0;
    ghost var g := 0;
    while i + 3 <= |bytes|
      invariant 0 <= i <= |bytes| && i == 3 * g && Written(bytes, g, out)
    {
      out := Append(bytes, g, out, bytes[i] as int * 0x1_0000 + bytes[i + 1] as int * 0x100 + bytes[i + 2] as int, 3);
      i, g := i + 3, g + 1;
    }
    var rest := |bytes| - i;
    if rest > 0 {
      var n := bytes[i] as int * 0x1_0000;
      if rest == 2 {
        n := n + bytes[i + 1] as int * 0x100;
      }
      out := Append(bytes, g, out, n, rest);
      g := g + 1;
    }
    assert |out| == Base64Length(|bytes|);
  }

  /** Four characters for the 24 bits `n`, of which `rest` bytes are data. */
  method Append(ghost b: seq<byte>, ghost g: nat, out: Text, n: nat, rest: nat) returns (out': Text)
    requires 3 * g < |b| && Written(b, g, out) && rest == (if |b| - 3 * g < 3 then |b| - 3 * g else 3)
    requires n == At(b, 3 * g) * 0x1_0000 + At(b, 3 * g + 1) * 0x100 + At(b, 3 * g + 2)
    ensures Written(b, g + 1, out')
  {
    Group(b, g, n);
    out' := out + [Symbol(n / 0x4_0000 % 64), Symbol(n / 0x1000 % 64),
                   if rest >= 2 then Symbol(n / 64 % 64) else PAD, if rest >= 3 then Symbol(n % 64) else PAD];
  }

  // ----------------------------------------------------------------- decoder

  lemma {:induction false} StripPrefix(s: Text, i: nat)
    requires i <= |s|
    ensures Strip(s[..i]) <= Strip(s)
    decreases |s|
  {
    if i == |s| {
      assert s[..i] == s;
    } else {
      assert s[..|s| - 1][..i] == s[..i];
      StripPrefix(s[..|s| - 1], i);
    }
  }

  /** `t` is the characters for `vals`, followed by padding only. */
  ghost predicate Spells(t: Text, vals: seq<sextet>) {
    && |vals| <= |t|
    && (forall j :: 0 <= j < |vals| ==> Lookup(t[j]) == vals[j])
    && forall j :: |vals| <= j < |t| ==> t[j] == PAD
  }

  /** Whole bytes in `n` characters, and the bits left over. */
  function ByteCount(n: nat): nat {
    3 * (n / 4) + (if n % 4 == 3 then 2 else if n % 4 == 2 then 1 else 0)
  }

  function LeftOver(n: nat): nat {
    if n % 4 == 0 then 0 else 8 - 2 * (n % 4)
  }

  lemma BitCount(n: nat)
    ensures 8 * ByteCount(n) + LeftOver(n) == 6 * n && LeftOver(n) < 8
  {
  }

  /** Value `j`, or zero past the end. */
  function ValueAt(vals: seq<sextet>, j: nat): sextet {
    if j < |vals| then vals[j] else 0
  }

  /** Byte `r` of the three that group `g` of four values makes. */
  function ByteIn(vals: seq<sextet>, g: nat, r: nat): (v: nat)
    ensures v < 256
  {
    if r == 0 then ValueAt(vals, 4 * g) as int * 4 + ValueAt(vals, 4 * g + 1) / 16
    else if r == 1 then ValueAt(vals, 4 * g + 1) as int % 16 * 16 + ValueAt(vals, 4 * g + 2) / 4
    else ValueAt(vals, 4 * g + 2) as int % 4 * 64 + ValueAt(vals, 4 * g + 3)
  }

  function ByteOf(vals: seq<sextet>, k: nat): (v: nat)
    ensures v < 256
  {
    ByteIn(vals, k / 3, k % 3)
  }

  /** The last two values' twelve bits, which is all the decoder ever reads of
      its 32-bit accumulator. */
  function LowBits(vals: seq<sextet>): (v: nat)
    ensures v < 4096
  {
    if vals == [] then 0
    else if |vals| == 1 then vals[0]
    else vals[|vals| - 2] as int * 64 + vals[|vals| - 1]
  }

  /** (val << 6) + v in 32 bits: shifting wraps, adding cannot. */
  function Accumulate(val: int32, v: sextet): (r: int32)
    ensures r % 4096 == val % 64 * 64 + v
  {
    Wrapped(val, v);
    Signed32(val * 64 % 0x1_0000_0000) + v
  }

  lemma Wrapped(val: int32, v: sextet)
    ensures var r := Signed32(val * 64 % 0x1_0000_0000) + v;
            -0x8000_0000 <= r < 0x8000_0000 && r % 4096 == val % 64 * 64 + v
  {
  }

  /** A byte shifted out of the accumulator depends on its low twelve bits only. */
  lemma ShiftedOut(val: int)
    ensures val / 16 % 256 == val % 4096 / 16
    ensures val / 4 % 256 == val % 4096 / 4 % 256
    ensures val % 256 == val % 4096 % 256
    ensures val % 64 == val % 4096 % 64 && val % 16 == val % 4096 % 16 && val % 4 == val % 4096 % 4
  {
    Shifted(val, 16, 256);
    Shifted(val, 4, 1024);
    Shifted(val, 256, 16);
    Shifted(val, 64, 64);
    Thousand(val / 4, val % 4096 / 4, val / 4096);
  }

  lemma Thousand(x: int, y: int, q: int)
    requires x == 1024 * q + y
    ensures x % 256 == y % 256
  {
    Remainder256(4 * q + y / 256, y % 256);
  }

  lemma Shifted(val: int, k: int, c: int)
    requires (k == 16 && c == 256) || (k == 4 && c == 1024) || (k == 256 && c == 16) || (k == 64 && c == 64)
    ensures val / k == c * (val / 4096) + val % 4096 / k
    ensures val % k == val % 4096 % k
    ensures val % 4096 / k < c
  {
    var q, r := val / 4096, val % 4096;
    if k == 16 {
      assert val == 16 * (256 * q + r / 16) + r % 16;
    } else if k == 4 {
      assert val == 4 * (1024 * q + r / 4) + r % 4;
    } else if k == 256 {
      assert val == 256 * (16 * q + r / 256) + r % 256;
    } else {
      assert val == 64 * (64 * q + r / 64) + r % 64;
    }
  }

  lemma Pow2Values()
    ensures Pow2(0) == 1 && Pow2(2) == 4 && Pow2(4) == 16 && Pow2(6) == 64
  {
  }

  /** (val >> valB) & 0xFF, the shift rounding down. */
  function ShiftOut(val: int32, valB: nat): (c: byte) {
    (val / Pow2(valB) % 256) as byte
  }

  /** Where the decoder stands after text `t` without whitespace. */
  ghost predicate Decoding(t: Text, vals: seq<sextet>, d: Decoder) {
    d.symbols == |t| == |vals| + d.padding && Spells(t, vals) && Progress(vals, d.out, d.val, d.valB)
  }

  datatype Decoder = Decoder(out: seq<byte>, val: int32, valB: int, symbols: nat, padding: nat)

  /** Decodes text whose whitespace-free form is an encoding to the bytes it
      encodes, and refuses every other text. */
  method FromBase64(base64: Text) returns (r: Result<seq<byte>>)
    ensures r.Ok? ==> Strip(base64) == Base64(r.value)
    ensures r.Err? ==> forall b :: Strip(base64) != Base64(b)
  {
    var d := Decoder([], 0, -8, 0, 0);
    ghost var vals: seq<sextet> := [];
    for i := 0 to |base64|
      invariant Decoding(Strip(base64[..i]), vals, d)
    {
      ghost var t := Strip(base64[..i]);
      StripNext(base64, i);
      if !IsWhitespace(base64[i]) {
        var ok;
        ok, d, vals := DecodeSymbol(t, vals, d, base64[i], Strip(base64));
        if !ok {
          return Err(GENERAL_FAILURE);
        }
      }
    }
    assert base64[..|base64|] == base64;
    r := FinishBase64(Strip(base64), vals, d);
  }

  /** One character that is not whitespace, in a text `whole`. */
  method DecodeSymbol(ghost t: Text, ghost vals: seq<sextet>, d: Decoder, c: byte, ghost whole: Text)
    returns (ok: bool, d': Decoder, ghost vals': seq<sextet>)
    requires Decoding(t, vals, d) && t + [c] <= whole
    ensures ok ==> Decoding(t + [c], vals', d')
    ensures !ok ==> forall b :: whole != Base64(b)
  {
    ok, d', vals' := true, d.(symbols := d.symbols + 1), vals;
    if c == PAD {
      d' := d'.(padding := d.padding + 1);
      return;
    }
    if Lookup(c) == -1 {
      BadCharacter(whole, |t|);
      ok := false;
      return;
    }
    if d.padding > 0 {
      assert whole[|t| - 1] == t[|t| - 1];
      DataAfterPadding(whole, |t| - 1, |t|);
      ok := false;
      return;
    }
    var out, val, valB := DecodeOne(vals, Lookup(c), d.out, d.val, d.valB);
    vals', d' := vals + [Lookup(c)], Decoder(out, val, valB, d.symbols + 1, d.padding);
  }

  /** One alphabet character: six bits in, and a byte out once eight wait. */
  method DecodeOne(ghost vals: seq<sextet>, v: sextet, out: seq<byte>, val: int32, valB: int)
    returns (out': seq<byte>, val': int32, valB': int)
    requires Progress(vals, out, val, valB)
    ensures Progress(vals + [v], out', val', valB')
  {
    val' := Accumulate(val, v);
    valB' := valB + 6;
    out' := out;
    OneMore(vals, v, out, val, val');
    if valB' >= 0 {
      out' := out' + [ShiftOut(val', valB')];
      valB' := valB' - 8;
    }
  }

  /** The checks after the last character. */
  method FinishBase64(ghost t: Text, ghost vals: seq<sextet>, d: Decoder) returns (r: Result<seq<byte>>)
    requires Decoding(t, vals, d)
    ensures r.Ok? ==> t == Base64(r.value)
    ensures r.Err? ==> forall b :: t != Base64(b)
  {
    if d.symbols % 4 != 0 || d.padding > 2 {
      BadLength(t, |vals|);
      return Err(GENERAL_FAILURE);
    }
    var unusedBits := d.valB + 8;
    if unusedBits > 0 && d.val % Pow2(unusedBits) != 0 {
      BadBits(t, vals, d.val);
      return Err(GENERAL_FAILURE);
    }
    Reencodes(t, vals, d.out, d.val);
    return Ok(d.out);
  }

  lemma StripNext(s: Text, i: nat)
    requires i < |s|
    ensures Strip(s[..i + 1]) == if IsWhitespace(s[i]) then Strip(s[..i]) else Strip(s[..i]) + [s[i]]
    ensures Strip(s[..i + 1]) <= Strip(s)
  {
    assert s[..i + 1][..i] == s[..i];
    StripPrefix(s, i + 1);
  }

  /** Where the loop stands after the values `vals`. */
  ghost predicate Progress(vals: seq<sextet>, out: seq<byte>, val: int32, valB: int) {
    && |out| == ByteCount(|vals|) && valB == LeftOver(|vals|) - 8
    && val % 4096 == LowBits(vals)
    && forall k :: 0 <= k < |out| ==> out[k] as int == ByteOf(vals, k)
  }

  /** What one character more does to the accumulator, the counts and the bytes. */
  lemma OneMore(vals: seq<sextet>, v: sextet, out: seq<byte>, val: int32, val': int32)
    requires Progress(vals, out, val, LeftOver(|vals|) - 8) && val' == Accumulate(val, v)
    ensures val' % 4096 == LowBits(vals + [v])
    ensures forall k :: 0 <= k < |out| ==> out[k] as int == ByteOf(vals + [v], k)
    ensures var n := |vals|;
            if LeftOver(n) >= 2 then
              && ByteCount(n + 1) == |out| + 1 && LeftOver(n + 1) == LeftOver(n) - 2
              && ShiftOut(val', LeftOver(n) - 2) as int == ByteOf(vals + [v], |out|)
            else ByteCount(n + 1) == |out| && LeftOver(n + 1) == LeftOver(n) + 6
  {
    var n, vals' := |vals|, vals + [v];
    Successor(n);
    LastSix(vals, val);
    forall k | 0 <= k < |out| ensures ByteOf(vals', k) == ByteOf(vals, k) {
      SameByte(vals, v, k);
    }
    if LeftOver(n) >= 2 {
      NextByte(vals', val');
    }
  }

  lemma LastSix(vals: seq<sextet>, val: int32)
    requires val % 4096 == LowBits(vals)
    ensures val % 64 == if vals == [] then 0 else vals[|vals| - 1]
  {
  }

  lemma Successor(n: nat)
    ensures LeftOver(n + 1) == if LeftOver(n) >= 2 then LeftOver(n) - 2 else LeftOver(n) + 6
    ensures ByteCount(n + 1) == if LeftOver(n) >= 2 then ByteCount(n) + 1 else ByteCount(n)
  {
  }

  /** Bytes already complete do not change with more characters. */
  lemma SameByte(vals: seq<sextet>, v: sextet, k: nat)
    requires k < ByteCount(|vals|)
    ensures ByteOf(vals + [v], k) == ByteOf(vals, k)
  {
  }

  lemma TwoValues(a: sextet, v: sextet)
    ensures (a as int * 64 + v) / 16 == a as int * 4 + v / 16
    ensures (a as int * 64 + v) / 4 % 256 == a as int % 16 * 16 + v / 4
    ensures (a as int * 64 + v) % 256 == a as int % 4 * 64 + v
  {
    var x: int, y: int := a, v;
    Quotient16(4 * x + y / 16, y % 16);
    Quotient4(16 * x + y / 4, y % 4);
    Remainder256(x / 16, x % 16 * 16 + y / 4);
    Remainder256(x / 4, x % 4 * 64 + y);
  }

  lemma Quotient16(q: int, r: int)
    requires 0 <= r < 16
    ensures (16 * q + r) / 16 == q
  {
  }

  lemma Quotient4(q: int, r: int)
    requires 0 <= r < 4
    ensures (4 * q + r) / 4 == q
  {
  }

  lemma Remainder256(q: int, r: int)
    requires 0 <= r < 256
    ensures (256 * q + r) % 256 == r
  {
  }

  /** The byte that comes out with a character is the next one of the stream. */
  lemma NextByte(vals: seq<sextet>, val: int32)
    requires |vals| > 1 && |vals| % 4 != 1 && val % 4096 == LowBits(vals)
    ensures ShiftOut(val, LeftOver(|vals|)) as int == ByteOf(vals, ByteCount(|vals|) - 1)
  {
    var n := |vals|;
    var a, v := vals[n - 2], vals[n - 1];
    ShiftOutLow(val, a as int * 64 + v);
    TwoValues(a, v);
    var g := if n % 4 == 0 then n / 4 - 1 else n / 4;
    var r := if n % 4 == 0 then 2 else n % 4 - 2;
    assert ByteCount(n) - 1 == 3 * g + r && 4 * g + r + 1 == n - 1;
    ByteOfIs(vals, g, r);
  }

  lemma ByteOfIs(vals: seq<sextet>, g: nat, r: nat)
    requires r < 3
    ensures ByteOf(vals, 3 * g + r) == ByteIn(vals, g, r)
  {
  }

  lemma ShiftOutLow(val: int32, x: nat)
    requires val % 4096 == x
    ensures ShiftOut(val, 4) as int == x / 16
    ensures ShiftOut(val, 2) as int == x / 4 % 256
    ensures ShiftOut(val, 0) as int == x % 256
  {
    ShiftedOut(val);
    Pow2Values();
  }

  // ------------------------------------------- what no encoding looks like

  lemma BadCharacter(t: Text, j: nat)
    requires j < |t| && Lookup(t[j]) == -1 && t[j] != PAD
    ensures forall b :: t != Base64(b)
  {
  }

  lemma DataAfterPadding(t: Text, i: nat, j: nat)
    requires i < j < |t| && t[i] == PAD && t[j] != PAD
    ensures forall b :: t != Base64(b)
  {
  }

  lemma BadLength(t: Text, n: nat)
    requires n <= |t| && (forall j :: n <= j < |t| ==> t[j] == PAD) && (|t| % 4 != 0 || |t| - n > 2)
    ensures forall b :: t != Base64(b)
  {
    forall b ensures |t| == Base64Length(|b|) && |t| >= 3 ==> |t| % 4 == 0 && Base64At(b, |t| - 3) != PAD {
    }
  }

  /** How many bytes an encoding has, and which values its characters spell. */
  lemma DataLength(t: Text, vals: seq<sextet>, b: seq<byte>)
    requires Spells(t, vals) && t == Base64(b)
    ensures |b| == ByteCount(|vals|) && |vals| % 4 != 1
    ensures forall j :: 0 <= j < |vals| ==> vals[j] == Sextet(b, j)
  {
    var n := |vals|;
    BitCount(n);
    if n > 0 {
      assert Base64At(b, n - 1) != PAD;
    }
    if n < |t| {
      assert Base64At(b, n) == PAD;
    }
    assert 6 * n >= 8 * |b| && (n > 0 ==> 6 * (n - 1) < 8 * |b|);
    forall j | 0 <= j < n ensures vals[j] == Sextet(b, j) {
      LookupSymbol(Sextet(b, j));
    }
  }

  /** The bits left over of the last value are zero. */
  predicate ZeroBits(vals: seq<sextet>) {
    && (|vals| % 4 == 2 ==> vals[|vals| - 1] % 16 == 0)
    && (|vals| % 4 == 3 ==> vals[|vals| - 1] % 4 == 0)
  }

  lemma EncodingHasZeroBits(t: Text, vals: seq<sextet>, b: seq<byte>)
    requires Spells(t, vals) && t == Base64(b)
    ensures ZeroBits(vals)
  {
    DataLength(t, vals, b);
    var n := |vals|;
    if n % 4 == 2 || n % 4 == 3 {
      assert (n - 1) / 4 == n / 4 && (n - 1) % 4 == n % 4 - 1;
      assert |b| == 3 * (n / 4) + n % 4 - 1;
      assert vals[n - 1] == Slice(b, n / 4, n % 4 - 1);
    }
  }

  /** The accumulator's leftover bits are those of the last value. */
  lemma UnusedBits(vals: seq<sextet>, val: int32)
    requires |vals| % 4 != 1 && val % 4096 == LowBits(vals)
    ensures ZeroBits(vals) <==> (LeftOver(|vals|) > 0 ==> val % Pow2(LeftOver(|vals|)) == 0)
  {
    Pow2Values();
    ShiftedOut(val);
    if |vals| > 1 {
      Mod16(vals[|vals| - 2], vals[|vals| - 1]);
    }
  }

  lemma Mod16(a: sextet, v: sextet)
    ensures (a as int * 64 + v) % 16 == v % 16 && (a as int * 64 + v) % 4 == v % 4
  {
  }

  lemma BadBits(t: Text, vals: seq<sextet>, val: int32)
    requires Spells(t, vals) && |vals| % 4 != 1 && val % 4096 == LowBits(vals)
    requires LeftOver(|vals|) > 0 && val % Pow2(LeftOver(|vals|)) != 0
    ensures forall b :: t != Base64(b)
  {
    UnusedBits(vals, val);
    forall b ensures t != Base64(b) {
      if t == Base64(b) {
        EncodingHasZeroBits(t, vals, b);
      }
    }
  }

  /** A decoding that passed every check encodes to the text it came from. */
  lemma Reencodes(t: Text, vals: seq<sextet>, out: seq<byte>, val: int32)
    requires Spells(t, vals) && |t| % 4 == 0 && |t| - |vals| <= 2
    requires Progress(vals, out, val, LeftOver(|vals|) - 8)
    requires LeftOver(|vals|) > 0 ==> val % Pow2(LeftOver(|vals|)) == 0
    ensures t == Base64(out)
  {
    var n := |vals|;
    assert |t| == Base64Length(|out|);
    UnusedBits(vals, val);
    BitCount(n);
    forall j | 0 <= j < |t| ensures t[j] == Base64At(out, j) {
      if j < n {
        SextetBack(vals, out, j);
        SymbolLookup(t[j]);
      }
    }
  }

  lemma SextetBack(vals: seq<sextet>, out: seq<byte>, j: nat)
    requires |vals| % 4 != 1 && j < |vals| && ZeroBits(vals) && |out| == ByteCount(|vals|)
    requires forall k :: 0 <= k < |out| ==> out[k] as int == ByteOf(vals, k)
    ensures Sextet(out, j) == vals[j]
  {
    var g, r := j / 4, j % 4;
    assert j == 4 * g + r;
    GroupByte(vals, out, g, 0);
    GroupByte(vals, out, g, 1);
    GroupByte(vals, out, g, 2);
    SliceBack(vals, out, g, r);
    SextetIs(out, g, r);
  }

  lemma SliceBack(vals: seq<sextet>, out: seq<byte>, g: nat, r: nat)
    requires r < 4 && At(out, 3 * g) == ByteIn(vals, g, 0)
    requires At(out, 3 * g + 1) == ByteIn(vals, g, 1) && At(out, 3 * g + 2) == ByteIn(vals, g, 2)
    ensures Slice(out, g, r) == ValueAt(vals, 4 * g + r)
  {
    Recombine(ValueAt(vals, 4 * g), ValueAt(vals, 4 * g + 1), ValueAt(vals, 4 * g + 2), ValueAt(vals, 4 * g + 3));
  }

  /** Bytes of a group, missing ones counting as zero. */
  lemma GroupByte(vals: seq<sextet>, out: seq<byte>, g: nat, r: nat)
    requires |vals| % 4 != 1 && 4 * g < |vals| && ZeroBits(vals) && |out| == ByteCount(|vals|) && r < 3
    requires forall k :: 0 <= k < |out| ==> out[k] as int == ByteOf(vals, k)
    ensures At(out, 3 * g + r) == ByteIn(vals, g, r)
  {
  }

  lemma Recombine(a: sextet, b: sextet, c: sextet, d: sextet)
    ensures var x, y, z := a as int * 4 + b / 16, b as int % 16 * 16 + c / 4, c as int % 4 * 64 + d;
            x / 4 == a && x % 4 * 16 + y / 16 == b && y % 16 * 4 + z / 64 == c && z % 64 == d
  {
  }

  // ------------------------------------------------------------- round trips

  /** The encoding of different byte strings differs. */
  lemma Base64Injective(a: seq<byte>, b: seq<byte>)
    requires Base64(a) == Base64(b)
    ensures a == b
  {
    var t := Base64(a);
    var n := (8 * |a| + 5) / 6;
    var vals: seq<sextet> := seq(n, j requires 0 <= j => Sextet(a, j));
    assert Spells(t, vals) by {
      forall j | 0 <= j < n ensures Lookup(t[j]) == vals[j] {
        assert t[j] == Base64At(a, j);
        LookupSymbol(Sextet(a, j));
      }
    }
    DataLength(t, vals, a);
    DataLength(t, vals, b);
    forall i | 0 <= i < |a| ensures a[i] == b[i] {
      FromSextets(a, vals, i);
      FromSextets(b, vals, i);
    }
  }

  lemma FromSextets(b: seq<byte>, vals: seq<sextet>, i: nat)
    requires i < |b| == ByteCount(|vals|) && forall j :: 0 <= j < |vals| ==> vals[j] == Sextet(b, j)
    ensures b[i] as int == ByteOf(vals, i)
  {
    var g, r := i / 3, i % 3;
    assert i == 3 * g + r && 4 * g + r + 1 < |vals|;
    SextetIs(b, g, r);
    SextetIs(b, g, r + 1);
    RejoinedByte(b, g, r, vals[4 * g + r], vals[4 * g + r + 1]);
  }

  /** A byte is cut across two neighbouring slices. */
  lemma RejoinedByte(b: seq<byte>, g: nat, r: nat, s: sextet, t: sextet)
    requires r < 3 && s == Slice(b, g, r) && t == Slice(b, g, r + 1)
    ensures At(b, 3 * g + r) ==
            if r == 0 then s as int * 4 + t / 16
            else if r == 1 then s as int % 16 * 16 + t / 4
            else s as int % 4 * 64 + t
  {
    Rejoin(At(b, 3 * g), At(b, 3 * g + 1), At(b, 3 * g + 2));
  }

  lemma Rejoin(x: nat, y: nat, z: nat)
    requires x < 256 && y < 256 && z < 256
    ensures x / 4 * 4 + (x % 4 * 16 + y / 16) / 16 == x
    ensures (x % 4 * 16 + y / 16) % 16 * 16 + (y % 16 * 4 + z / 64) / 4 == y
    ensures (y % 16 * 4 + z / 64) % 4 * 64 + z % 64 == z
  {
  }

  /** Decoding undoes encoding. */
  method Base64RoundTrip(bytes: seq<byte>) returns (r: Result<seq<byte>>)
    ensures r == Ok(bytes)
  {
    var text := ToBase64(bytes);
    StripNothing(text);
    r := FromBase64(text);
    if r.Ok? {
      Base64Injective(r.value, bytes);
    }
  }

  // ------------------------------------------------------------- hexadecimal

  /** The lower-case digit for a value, and the value of a digit of either case. */
  function HexDigit(v: nat): byte
    requires v < 16
  {
    if v < 10 then (48 + v) as byte else (87 + v) as byte
  }

  function HexValue(c: byte): (v: int)
    ensures -1 <= v < 16
  {
    if 48 <= c <= 57 then c as int - 48
    else if 65 <= c <= 70 then c as int - 65 + 10
    else if 97 <= c <= 102 then c as int - 97 + 10
    else -1
  }

  function HexAt(b: seq<byte>, j: nat): byte
    requires j < 2 * |b|
  {
    if j % 2 == 0 then HexDigit(b[j / 2] as int / 16) else HexDigit(b[j / 2] as int % 16)
  }

  /** Two lower-case digits for every byte. */
  function Hex(b: seq<byte>): (t: Text)
    ensures |t| == 2 * |b| && forall j :: 0 <= j < |t| ==> t[j] == HexAt(b, j)
  {
    seq(2 * |b|, j requires 0 <= j < 2 * |b| => HexAt(b, j))
  }

  function Lower(c: byte): byte {
    if 65 <= c <= 70 then c + 32 else c
  }

  /** `t` is the digits of `b`, in either case. */
  ghost predicate HexOf(t: Text, b: seq<byte>) {
    |t| == 2 * |b| && forall j :: 0 <= j < |t| ==> Lower(t[j]) == HexAt(b, j)
  }

  method ToHex(bytes: seq<byte>) returns (out: Text)
    ensures out == Hex(bytes)
  {
    out := [];
    for i := 0 to |bytes|
      invariant |out| == 2 * i && forall j :: 0 <= j < |out| ==> out[j] == HexAt(bytes, j)
    {
      out := out + [HexDigit(bytes[i] as int / 16), HexDigit(bytes[i] as int % 16)];
    }
  }

  /** Accepts exactly the digits, in either case, of some non-empty bytes, and
      returns those bytes. */
  method FromHex(hex: Text) returns (r: Result<seq<byte>>)
    ensures r.Ok? ==> r.value != [] && HexOf(hex, r.value)
    ensures r.Err? ==> forall b :: b != [] ==> !HexOf(hex, b)
  {
    if hex == [] || |hex| % 2 != 0 {
      OddDigits(hex);
      return Err(GENERAL_FAILURE);
    }
    var bytes: seq<byte> := [];
    var i := 0;
    while i < |hex|
      invariant i == 2 * |bytes| <= |hex| && HexOf(hex[..i], bytes)
    {
      if HexValue(hex[i]) == -1 || HexValue(hex[i + 1]) == -1 {
        BadDigit(hex, if HexValue(hex[i]) == -1 then i else i + 1);
        return Err(GENERAL_FAILURE);
      }
      var high, low := HexValue(hex[i]), HexValue(hex[i + 1]);
      NextHex(hex, i, bytes);
      bytes := bytes + [(high * 16 + low) as byte];
      i := i + 2;
    }
    assert hex[..i] == hex;
    return Ok(bytes);
  }

  lemma OddDigits(hex: Text)
    requires hex == [] || |hex| % 2 != 0
    ensures forall b :: b != [] ==> !HexOf(hex, b)
  {
  }

  lemma NextHex(hex: Text, i: nat, b: seq<byte>)
    requires i + 1 < |hex| && i == 2 * |b| && HexOf(hex[..i], b) && HexValue(hex[i]) != -1 && HexValue(hex[i + 1]) != -1
    ensures HexOf(hex[..i + 2], b + [(HexValue(hex[i]) * 16 + HexValue(hex[i + 1])) as byte])
  {
    DigitValue(hex[i]);
    DigitValue(hex[i + 1]);
    var next := (HexValue(hex[i]) * 16 + HexValue(hex[i + 1])) as byte;
    assert next as int / 16 == HexValue(hex[i]) && next as int % 16 == HexValue(hex[i + 1]);
    forall j | 0 <= j < i + 2 ensures Lower(hex[..i + 2][j]) == HexAt(b + [next], j) {
      if j < i {
        assert Lower(hex[..i][j]) == HexAt(b, j);
      }
    }
  }

  lemma DigitValue(c: byte)
    ensures HexValue(c) != -1 ==> HexDigit(HexValue(c)) == Lower(c)
    ensures HexValue(c) == -1 ==> forall v: nat :: v < 16 ==> HexDigit(v) != Lower(c)
  {
  }

  lemma BadDigit(hex: Text, j: nat)
    requires j < |hex| && HexValue(hex[j]) == -1
    ensures forall b :: !HexOf(hex, b)
  {
  }

  /** Different bytes have different digits. */
  lemma HexInjective(t: Text, a: seq<byte>, b: seq<byte>)
    requires HexOf(t, a) && HexOf(t, b)
    ensures a == b
  {
    forall i | 0 <= i < |a| ensures a[i] == b[i] {
      assert HexAt(a, 2 * i) == HexAt(b, 2 * i) && HexAt(a, 2 * i + 1) == HexAt(b, 2 * i + 1);
      SameDigit(a[i] as int / 16, b[i] as int / 16);
      SameDigit(a[i] as int % 16, b[i] as int % 16);
    }
  }

  lemma SameDigit(v: nat, w: nat)
    requires v < 16 && w < 16 && HexDigit(v) == HexDigit(w)
    ensures v == w
  {
  }

  /** Decoding undoes encoding for every byte string but the empty one, whose
      digits the decoder refuses. */
  method HexRoundTrip(bytes: seq<byte>) returns (r: Result<seq<byte>>)
    ensures r == Ok(bytes) <==> bytes != []
    ensures bytes == [] ==> r.Err?
  {
    var text := ToHex(bytes);
    assert HexOf(text, bytes);
    r := FromHex(text);
    if r.Ok? {
      HexInjective(text, r.value, bytes);
    }
  }
}
