/** The growable output buffer of kmipcore: a byte vector with a write position
    and a capacity that doubles up to a hard limit. */
module Buffers {
  import opened Prelude

  const ALIGNMENT: nat := 8
  const DEFAULT_CAPACITY: nat := 8192
  const MIN_CAPACITY: nat := 1024
  const MAX_CAPACITY: nat := 100 * 1024 * 1024

  /** The most a buffer of the default capacity can ever hold. */
  const DEFAULT_LIMIT: nat := 64 * 1024 * 1024

  function Zeros(n: nat): (s: seq<byte>)
    ensures |s| == n && forall i :: 0 <= i < n ==> s[i] == 0
  {
    seq(n, _ => 0)
  }

  /** Bytes missing to the next multiple of the alignment. */
  function Padding(n: nat): (p: nat)
    ensures p < ALIGNMENT && (n + p) % ALIGNMENT == 0
  {
    (ALIGNMENT - n % ALIGNMENT) % ALIGNMENT
  }

  /** Where doubling `c` stops once it reaches `required`. */
  ghost function LeastDoubling(c: nat, required: nat): (r: nat)
    requires c > 0
    ensures r >= required && r >= c
    decreases required - c
  {
    if c >= required then c else LeastDoubling(2 * c, required)
  }

  /** `c` doubled `k` times, that is c*2^k. */
  function Doubled(c: nat, k: nat): (r: nat)
    ensures r >= c
    decreases k
  {
    if k == 0 then c else Doubled(2 * c, k - 1)
  }

  /** LeastDoubling is the least c*2^k that reaches `required`. */
  lemma {:induction false} LeastDoublingIsLeast(c: nat, required: nat)
    requires c > 0
    ensures exists k: nat :: LeastDoubling(c, required) == Doubled(c, k)
    ensures forall k: nat :: Doubled(c, k) >= required ==> LeastDoubling(c, required) <= Doubled(c, k)
    decreases required - c
  {
    if c >= required {
      assert c == Doubled(c, 0);
    } else {
      LeastDoublingIsLeast(2 * c, required);
      var k: nat :| LeastDoubling(2 * c, required) == Doubled(2 * c, k);
      assert Doubled(c, k + 1) == Doubled(2 * c, k);
      forall j: nat | Doubled(c, j) >= required ensures LeastDoubling(c, required) <= Doubled(c, j) {
        assert Doubled(c, j) == Doubled(2 * c, j - 1);
      }
    }
  }

  /** The largest size that doubling from capacity `c` can reach. */
  ghost function LimitOf(c: nat): (r: nat)
    ensures r >= c
    decreases if c == 0 then MAX_CAPACITY else MAX_CAPACITY - c
  {
    if c == 0 then LimitOf(MIN_CAPACITY)
    else if 2 * c <= MAX_CAPACITY then LimitOf(2 * c)
    else c
  }

  /** From capacity `c`, a write up to position `total` is granted if and only
      if it fits already or the least c*2^k that holds it is within the maximum;
      growing moves the capacity and never the limit. */
  lemma {:induction false} LimitIsLeastDoubling(c: nat, total: nat)
    requires 0 < c < total
    ensures total <= LimitOf(c) <==> LeastDoubling(c, total) <= MAX_CAPACITY
    ensures total <= LimitOf(c) ==> LimitOf(LeastDoubling(c, total)) == LimitOf(c)
    decreases total - c
  {
    if 2 * c < total && 2 * c <= MAX_CAPACITY {
      LimitIsLeastDoubling(2 * c, total);
    }
  }

  /** A default buffer, and one that has been shrunk, can hold 64 MiB and not
      one byte more, although the limit the error message names is 100 MB. */
  lemma DefaultLimit()
    ensures LimitOf(DEFAULT_CAPACITY) == LimitOf(0) == DEFAULT_LIMIT
  {
    assert LimitOf(0x200_0000) == DEFAULT_LIMIT;
    assert LimitOf(0x100_0000) == LimitOf(0x80_0000) == LimitOf(0x40_0000) == DEFAULT_LIMIT;
    assert LimitOf(0x20_0000) == LimitOf(0x10_0000) == LimitOf(0x8_0000) == DEFAULT_LIMIT;
    assert LimitOf(0x4_0000) == LimitOf(0x2_0000) == LimitOf(0x1_0000) == DEFAULT_LIMIT;
    assert LimitOf(0x8000) == LimitOf(0x4000) == LimitOf(0x2000) == DEFAULT_LIMIT;
    assert LimitOf(0x1000) == LimitOf(0x800) == LimitOf(0x400) == DEFAULT_LIMIT;
  }

  class SerializationBuffer {
    var buffer: seq<byte>
    var capacity: nat
    var currentOffset: nat

    ghost predicate Valid()
      reads this
    {
      currentOffset <= |buffer| <= capacity
    }

    /** The bytes written since construction or the last reset. */
    ghost function Contents(): seq<byte>
      requires Valid()
      reads this
    {
      buffer[..currentOffset]
    }

    /** The most this buffer can ever hold. */
    ghost function Limit(): nat
      reads this`capacity
    {
      LimitOf(capacity)
    }

    constructor (initialCapacity: nat := DEFAULT_CAPACITY)
      ensures Valid() && Contents() == [] && capacity == initialCapacity
    {
      buffer, capacity, currentOffset := [], initialCapacity, 0;
    }

    method ExpandCapacity(required: nat) returns (r: Result<()>)
      requires Valid() && required > capacity
      modifies this`capacity
      ensures r.Ok? <==> required <= old(Limit())
      ensures r.Ok? ==> capacity == LeastDoubling(if old(capacity) == 0 then MIN_CAPACITY else old(capacity), required)
      ensures r.Err? ==> capacity == old(capacity)
      ensures Limit() == old(Limit())
    {
      var newCapacity := capacity;
      if newCapacity == 0 {
        newCapacity := MIN_CAPACITY;
      }
      ghost var start := newCapacity;
      if start < required {
        LimitIsLeastDoubling(start, required);
      }
      while newCapacity < required
        invariant newCapacity > 0
        invariant LeastDoubling(newCapacity, required) == LeastDoubling(start, required)
        decreases required - newCapacity
      {
        newCapacity := newCapacity * 2;
      }
      if newCapacity > MAX_CAPACITY {
        return Err(GENERAL_FAILURE);
      }
      capacity := newCapacity;
      return Ok(());
    }

    method EnsureSpace(n: nat) returns (r: Result<()>)
      requires Valid()
      modifies this`capacity
      ensures Valid() && Limit() == old(Limit())
      ensures r.Ok? <==> currentOffset + n <= Limit()
      ensures r.Ok? ==> currentOffset + n <= capacity
      ensures r.Err? ==> capacity == old(capacity)
    {
      if currentOffset + n <= capacity {
        return Ok(());
      }
      r := ExpandCapacity(currentOffset + n);
    }

    /** std::vector::resize upwards, within the reserved capacity. */
    method Resize(n: nat)
      requires Valid() && |buffer| <= n <= capacity
      modifies this`buffer
      ensures buffer == old(buffer) + Zeros(n - |old(buffer)|)
    {
      buffer := buffer + Zeros(n - |buffer|);
    }

    method WriteByte(value: byte) returns (r: Result<()>)
      requires Valid()
      modifies this
      ensures Valid() && Limit() == old(Limit())
      ensures r.Ok? <==> old(currentOffset) + 1 <= Limit()
      ensures r.Ok? ==> Contents() == old(Contents()) + [value]
      ensures r.Err? ==> unchanged(this)
    {
      var space := EnsureSpace(1);
      if space.Err? {
        return space;
      }
      if currentOffset >= |buffer| {
        Resize(currentOffset + 1);
      }
      ghost var before := old(Contents());
      assert buffer[..currentOffset] == before;
      buffer := buffer[currentOffset := value];
      currentOffset := currentOffset + 1;
      assert Contents() == before + [value];
      return Ok(());
    }

    /** memcpy into the vector at the write position, then advance. */
    method Store(data: seq<byte>)
      requires Valid() && currentOffset + |data| <= capacity
      modifies this`buffer, this`currentOffset
      ensures Valid()
      ensures Contents() == old(Contents()) + data
    {
      var length := |data|;
      if currentOffset + length > |buffer| {
        Resize(currentOffset + length);
      }
      ghost var before := old(Contents());
      assert buffer[..currentOffset] == before;
      buffer := buffer[..currentOffset] + data + buffer[currentOffset + length..];
      currentOffset := currentOffset + length;
      assert Contents() == before + data;
    }

    method WriteBytes(data: seq<byte>) returns (r: Result<()>)
      requires Valid()
      modifies this
      ensures Valid() && Limit() == old(Limit())
      ensures r.Ok? <==> old(currentOffset) + |data| <= Limit()
      ensures r.Ok? ==> Contents() == old(Contents()) + data
      ensures r.Err? ==> unchanged(this)
    {
      if data == [] {
        assert Contents() == Contents() + data;
        return Ok(());
      }
      var space := EnsureSpace(|data|);
      if space.Err? {
        return space;
      }
      Store(data);
      return Ok(());
    }

    method WritePadded(data: seq<byte>) returns (r: Result<()>)
      requires Valid()
      modifies this
      ensures Valid() && Limit() == old(Limit())
      ensures r.Ok? <==> old(currentOffset) + |data| + Padding(|data|) <= Limit()
      ensures r.Ok? ==> Contents() == old(Contents()) + data + Zeros(Padding(|data|))
      ensures r.Err? ==> Contents() == old(Contents()) || Contents() == old(Contents()) + data
    {
      var padding := Padding(|data|);
      r := WriteBytes(data);
      if r.Err? {
        return;
      }
      if padding > 0 {
        var space := EnsureSpace(padding);
        if space.Err? {
          return space;
        }
        Store(Zeros(padding));
      }
      return Ok(());
    }

    /** Rewinds the write position; the bytes and the capacity stay. */
    method Reset()
      requires Valid()
      modifies this`currentOffset
      ensures Valid() && Contents() == []
    {
      currentOffset := 0;
    }

    method Release() returns (result: seq<byte>)
      requires Valid()
      modifies this`buffer, this`currentOffset
      ensures result == old(Contents())
      ensures Valid() && Contents() == []
    {
      result := buffer[..currentOffset];
      buffer, currentOffset := [], 0;
    }

    method Shrink()
      requires Valid()
      modifies this
      ensures Valid() && Contents() == [] && capacity == 0
    {
      buffer, capacity, currentOffset := [], 0, 0;
    }
  }
}
