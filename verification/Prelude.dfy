/** Shared vocabulary: results that stand for exceptions, fixed-width integers
    and big-endian byte strings. */
module Prelude {

  datatype Option<+T> = None | Some(value: T)

  /** A C++ call that either returns or throws a KmipException with a code. */
  datatype Result<+T> = Ok(value: T) | Err(code: int) {
    predicate IsFailure() {
      Err?
    }
    function PropagateFailure<U>(): Result<U>
      requires Err?
    {
      Err(code)
    }
    function Extract(): T
      requires Ok?
    {
      value
    }
  }

  newtype byte = b: int | 0 <= b < 0x100
  type int32 = n: int | -0x8000_0000 <= n < 0x8000_0000
  type uint32 = n: int | 0 <= n < 0x1_0000_0000
  type int64 = n: int | -0x8000_0000_0000_0000 <= n < 0x8000_0000_0000_0000

  /** The code of an exception built from a message alone. */
  const GENERAL_FAILURE := 0x0100

  /** The longest message a client receives, and the code of a longer one. */
  const MESSAGE_HARD_LIMIT: nat := 16 * 1024 * 1024
  const EXCEED_MAX_MESSAGE_SIZE := -14

  /** The unsigned value with the same 32 bits. */
  function Unsigned32(n: int32): (u: uint32)
    ensures Signed32(u) == n
  {
    if n < 0 then n + 0x1_0000_0000 else n
  }

  /** The signed value with the same 32 bits. */
  function Signed32(u: uint32): (n: int32) {
    if u >= 0x8000_0000 then u - 0x1_0000_0000 else u
  }

  function Unsigned64(n: int64): (u: int)
    ensures 0 <= u < 0x1_0000_0000_0000_0000
  {
    if n < 0 then n + 0x1_0000_0000_0000_0000 else n
  }

  function Signed64(u: int): (n: int64)
    requires 0 <= u < 0x1_0000_0000_0000_0000
  {
    if u >= 0x8000_0000_0000_0000 then u - 0x1_0000_0000_0000_0000 else u
  }

  function Pow2(k: nat): (p: nat)
    ensures p > 0
  {
    if k == 0 then 1 else 2 * Pow2(k - 1)
  }

  function Pow256(w: nat): nat {
    if w == 0 then 1 else 256 * Pow256(w - 1)
  }

  /** The low `w` bytes of `n`, most significant first. */
  function BigEndian(n: nat, w: nat): (s: seq<byte>)
    ensures |s| == w
  {
    if w == 0 then [] else BigEndian(n / 256, w - 1) + [(n % 256) as byte]
  }

  function FromBigEndian(s: seq<byte>): nat {
    if s == [] then 0 else FromBigEndian(s[..|s| - 1]) * 256 + s[|s| - 1] as int
  }

  /** Decoding undoes encoding for every value that fits the width. */
  lemma {:induction false} FromBigEndianBigEndian(n: nat, w: nat)
    requires n < Pow256(w)
    ensures FromBigEndian(BigEndian(n, w)) == n
  {
    if w > 0 {
      FromBigEndianBigEndian(n / 256, w - 1);
      var s := BigEndian(n, w);
      assert s[..w - 1] == BigEndian(n / 256, w - 1);
    }
  }

  /** Every byte string of width `w` encodes exactly one value below 256^w. */
  lemma {:induction false} BigEndianFromBigEndian(s: seq<byte>)
    ensures FromBigEndian(s) < Pow256(|s|)
    ensures BigEndian(FromBigEndian(s), |s|) == s
  {
    if s != [] {
      var init, last := s[..|s| - 1], s[|s| - 1];
      BigEndianFromBigEndian(init);
      assert FromBigEndian(s) / 256 == FromBigEndian(init);
      assert FromBigEndian(s) % 256 == last as int;
      assert init + [last] == s;
    }
  }

  lemma Pow256Values()
    ensures Pow256(3) == 0x100_0000
    ensures Pow256(4) == 0x1_0000_0000
    ensures Pow256(8) == 0x1_0000_0000_0000_0000
  {
  }

  /** A big-endian number read with shifts, four bytes at a time. */
  function ReadBe32(data: seq<byte>, off: nat): (n: uint32)
    requires off + 4 <= |data|
    ensures n == FromBigEndian(data[off..off + 4])
  {
    BigEndian4(data[off..off + 4]);
    0x100_0000 * (data[off] as int) + 0x1_0000 * (data[off + 1] as int)
    + 0x100 * (data[off + 2] as int) + data[off + 3] as int
  }

  function ReadBe64(data: seq<byte>, off: nat): (n: int)
    requires off + 8 <= |data|
    ensures n == FromBigEndian(data[off..off + 8])
    ensures 0 <= n < 0x1_0000_0000_0000_0000
  {
    BigEndian8(data[off..off + 8]);
    BigEndian4(data[off..off + 8][..4]);
    BigEndian4(data[off..off + 8][4..]);
    ReadBe32(data, off) * 0x1_0000_0000 + ReadBe32(data, off + 4)
  }

  function ReadBe24(data: seq<byte>, off: nat): (n: int)
    requires off + 3 <= |data|
    ensures n == FromBigEndian(data[off..off + 3])
    ensures 0 <= n < 0x100_0000
  {
    BigEndian3(data[off..off + 3]);
    0x1_0000 * (data[off] as int) + 0x100 * (data[off + 1] as int) + data[off + 2] as int
  }

  lemma BigEndian3(s: seq<byte>)
    requires |s| == 3
    ensures FromBigEndian(s) == 0x1_0000 * (s[0] as int) + 0x100 * (s[1] as int) + s[2] as int
  {
    assert s[..2][..1] == s[..1];
    assert FromBigEndian(s[..1]) == s[0] as int;
    assert FromBigEndian(s[..2]) == 0x100 * (s[0] as int) + s[1] as int;
  }

  lemma BigEndian4(s: seq<byte>)
    requires |s| == 4
    ensures FromBigEndian(s) ==
            0x100_0000 * (s[0] as int) + 0x1_0000 * (s[1] as int) + 0x100 * (s[2] as int) + s[3] as int
  {
    BigEndian3(s[..3]);
  }

  lemma BigEndian8(s: seq<byte>)
    requires |s| == 8
    ensures FromBigEndian(s) == FromBigEndian(s[..4]) * 0x1_0000_0000 + FromBigEndian(s[4..])
  {
    BigEndian4(s[4..]);
    var a, b, c, d := s[..4], s[..5], s[..6], s[..7];
    assert b[..4] == a && c[..5] == b && d[..6] == c && s[..7] == d;
    assert FromBigEndian(b) == FromBigEndian(a) * 256 + s[4] as int;
    assert FromBigEndian(c) == FromBigEndian(b) * 256 + s[5] as int;
    assert FromBigEndian(d) == FromBigEndian(c) * 256 + s[6] as int;
  }

  /** The low three bytes, shifted and masked out one by one. */
  function Be24(n: nat): (s: seq<byte>)
    ensures s == BigEndian(n, 3)
  {
    ShiftedBytes(n);
    [(n / 0x1_0000 % 0x100) as byte, (n / 0x100 % 0x100) as byte, (n % 0x100) as byte]
  }

  /** The low four bytes, shifted and masked out one by one. */
  function Be32(n: nat): (s: seq<byte>)
    ensures s == BigEndian(n, 4)
  {
    ShiftedBytes(n / 0x100);
    assert BigEndian(n / 0x100, 3) + [(n % 0x100) as byte] == BigEndian(n, 4);
    [(n / 0x100_0000 % 0x100) as byte, (n / 0x1_0000 % 0x100) as byte, (n / 0x100 % 0x100) as byte, (n % 0x100) as byte]
  }

  lemma ShiftedBytes(n: nat)
    ensures BigEndian(n, 3) == [(n / 0x1_0000 % 0x100) as byte, (n / 0x100 % 0x100) as byte, (n % 0x100) as byte]
    ensures n / 0x1_0000 == n / 0x100 / 0x100
  {
    assert BigEndian(n / 0x1_0000, 1) == [(n / 0x1_0000 % 0x100) as byte];
    assert n / 0x100 / 0x100 == n / 0x1_0000;
    assert BigEndian(n / 0x100, 2) == [(n / 0x1_0000 % 0x100) as byte, (n / 0x100 % 0x100) as byte];
  }
}
