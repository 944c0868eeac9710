/** The pool and its guard as objects, for what one thread does to them: the
    critical sections of the pool, and guards that are moved, assigned over,
    possibly to themselves, and destroyed. The interleavings are in `Pool`. */
module PoolObjects {
  import opened Prelude
  import opened Pool

  class KmipClientPool {
    const maxConnections: nat
    var available: seq<Slot>
    var totalCount: nat
    /** Slots that some guard owns. */
    ghost var lent: set<Slot>

    /** Idle and lent slots are different, and they are all the connections. */
    ghost predicate Valid()
      reads this
    {
      && (forall i, j :: 0 <= i < j < |available| ==> available[i] != available[j])
      && (forall slot :: slot in available ==> slot !in lent)
      && totalCount == |available| + |lent| && totalCount <= maxConnections
    }

    constructor (maxConnections: nat)
      ensures Valid() && this.maxConnections == maxConnections && available == [] && lent == {}
    {
      this.maxConnections := maxConnections;
      available, totalCount, lent := [], 0, {};
    }

    /** acquire_locked: the idle connection returned last, or one connected now
        under a reservation that a failed connect gives back. */
    method AcquireLocked(connected: Option<Slot>) returns (slot: Option<Slot>)
      requires Valid() && (available != [] || totalCount < maxConnections)
      requires connected.Some? ==> connected.value !in available && connected.value !in lent
      modifies this
      ensures Valid()
      ensures slot == if old(available) != [] then Some(old(available)[|old(available)| - 1]) else connected
      ensures slot.Some? ==> slot.value !in old(lent) && lent == old(lent) + {slot.value}
      ensures slot.Some? ==> available == if old(available) != [] then old(available)[..|old(available)| - 1] else []
      ensures slot.None? ==> lent == old(lent) && available == old(available) && totalCount == old(totalCount)
    {
      if available != [] {
        var last := |available| - 1;
        slot := Some(available[last]);
        available := available[..last];
        lent := lent + {slot.value};
        return;
      }
      totalCount := totalCount + 1;
      slot := connected;
      if connected.None? {
        totalCount := totalCount - 1;
      } else {
        lent := lent + {connected.value};
      }
    }

    /** return_slot: the slot leaves its guard for the idle list, which has room,
        or is dropped with its count. */
    method ReturnSlot(slot: Slot, healthy: bool, connected: bool)
      requires Valid() && slot in lent
      modifies this
      ensures Valid() && lent == old(lent) - {slot}
      ensures available == (if healthy && connected then old(available) + [slot] else old(available))
      ensures totalCount == old(totalCount) - (if healthy && connected then 0 else 1)
      ensures |available| <= maxConnections
    {
      if healthy && connected {
        available := available + [slot];
      } else {
        totalCount := totalCount - 1;
      }
      lent := lent - {slot};
    }
  }

  class BorrowedClient {
    var pool: KmipClientPool?
    var slot: Option<Slot>
    var healthy: bool

    /** It has a pool just when it owns a slot, and the pool knows. */
    ghost predicate Valid()
      reads this, pool
    {
      && (pool != null <==> slot.Some?)
      && (pool != null ==> pool.Valid() && slot.value in pool.lent)
    }

    constructor (pool: KmipClientPool, slot: Slot)
      requires pool.Valid() && slot in pool.lent
      ensures Valid() && this.pool == pool && this.slot == Some(slot) && healthy
    {
      this.pool, this.slot, this.healthy := pool, Some(slot), true;
    }

    constructor Move(other: BorrowedClient)
      requires other.Valid()
      modifies other
      ensures Valid() && other.Valid()
      ensures pool == old(other.pool) && slot == old(other.slot) && healthy == old(other.healthy) && other.slot.None?
    {
      pool, slot, healthy := other.pool, other.slot, other.healthy;
      new;
      other.pool, other.slot := null, None;
    }

    method MarkUnhealthy()
      modifies this`healthy
      ensures !healthy
    {
      healthy := false;
    }

    /** Two guards of one pool never own the same slot. */
    ghost predicate Apart(other: BorrowedClient)
      reads this, other
    {
      this != other && slot.Some? && other.slot.Some? && pool == other.pool ==> slot != other.slot
    }

    /** Assigning moves the other's slot here and returns the one held before,
        once; assigning to itself does nothing. */
    method MoveAssign(other: BorrowedClient, connected: bool)
      requires Valid() && other.Valid() && Apart(other)
      modifies this, other, pool
      ensures Valid() && other.Valid() && Apart(other)
      ensures this == other ==> slot == old(slot) && pool == old(pool)
      ensures this != other ==> slot == old(other.slot) && pool == old(other.pool) && healthy == old(other.healthy)
      ensures this != other ==> other.slot.None?
      ensures old(pool) != null ==> old(pool).lent == old(pool.lent) - (if this == other then {} else {old(slot.value)})
      ensures old(pool) != null ==> old(pool).Valid()
      ensures this == other ==> healthy == old(healthy)
      ensures old(pool) != null && this == other ==>
                old(pool).available == old(pool.available) && old(pool).totalCount == old(pool.totalCount)
      ensures old(pool) != null && this != other ==>
                if old(healthy) && connected then
                  && old(pool).available == old(pool.available) + [old(slot.value)]
                  && old(pool).totalCount == old(pool.totalCount)
                else
                  && old(pool).available == old(pool.available)
                  && old(pool).totalCount == old(pool.totalCount) - 1
    {
      if this != other {
        if pool != null && slot.Some? {
          pool.ReturnSlot(slot.value, healthy, connected);
        }
        pool, slot, healthy := other.pool, other.slot, other.healthy;
        other.pool, other.slot := null, None;
      }
    }

    /** The destructor returns the slot, if there is one. */
    method Destroy(connected: bool)
      requires Valid()
      modifies this, pool
      ensures slot.None? && pool == null
      ensures old(pool) != null ==> old(pool).Valid() && old(pool).lent == old(pool.lent) - {old(slot.value)}
      ensures old(pool) != null ==>
                if old(healthy) && connected then
                  && old(pool).available == old(pool.available) + [old(slot.value)]
                  && old(pool).totalCount == old(pool.totalCount)
                else
                  && old(pool).available == old(pool.available)
                  && old(pool).totalCount == old(pool.totalCount) - 1
    {
      if pool != null && slot.Some? {
        pool.ReturnSlot(slot.value, healthy, connected);
      }
      pool, slot := null, None;
    }
  }
}
