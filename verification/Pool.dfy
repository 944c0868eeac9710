/** The connection pool as a step system: any number of threads, a mutex, a
    condition variable, connects outside the lock, and guards that are moved and
    destroyed. Every event is one step of one thread; an event that is not
    enabled leaves the state as it is, so every list of events is a run. */
module Pool {
  import opened Prelude

  type Thread = nat
  type GuardId = nat
  type Slot = nat

  /** How a thread borrows; a timed wait turns into `Expired` at its deadline. */
  datatype Kind = Blocking | Timed | Expired | Trying

  /** Where a thread is. */
  datatype Pc =
    | Idle
    | Entering(kind: Kind)                    // about to lock, in a borrow
    | Checking(kind: Kind)                    // locked, at the predicate
    | Sleeping(kind: Kind)                    // in the condition variable
    | Notified(kind: Kind)                    // woken by notify_one, about to lock
    | Awake(kind: Kind)                       // woken by time or for no reason, about to lock
    | Granted                                 // locked, in acquire_locked
    | Connecting                              // a connection is reserved, not locked
    | Failing                                 // the connect threw, about to lock
    | Cancelling                              // locked, about to undo the reservation
    | Returning(slot: Slot, discard: bool)    // in return_slot, about to lock
    | Putting(slot: Slot, discard: bool)      // locked, about to put the slot back
    | Notifying                               // locked, about to notify and unlock

  /** BorrowedClient: whether it still has its pool, the slot and the health flag. */
  datatype Guard = Guard(attached: bool, slot: Option<Slot>, healthy: bool)

  datatype State = State(
    max: nat,
    lock: Option<Thread>,
    available: seq<Slot>,
    total: int,
    threads: map<Thread, Pc>,
    guards: map<GuardId, Guard>,
    nextSlot: nat,
    gone: set<Slot>,
    lent: nat,
    returned: nat)

  datatype Event =
    | Enter(t: Thread, kind: Kind)
    | Lock(t: Thread)
    | Check(t: Thread)
    | Acquire(t: Thread, g: GuardId)
    | Connected(t: Thread, g: GuardId)
    | ConnectFailed(t: Thread)
    | GiveBack(t: Thread)
    | Put(t: Thread)
    | Notify(t: Thread, w: Thread)
    | TimeOut(t: Thread)
    | Spurious(t: Thread)
    | MoveConstruct(g: GuardId, h: GuardId)
    | MoveAssign(t: Thread, g: GuardId, h: GuardId, connected: bool)
    | Destroy(t: Thread, g: GuardId, connected: bool)
    | MarkUnhealthy(g: GuardId)

  // ------------------------------------------------------------------- steps

  function PcOf(s: State, t: Thread): Pc {
    if t in s.threads then s.threads[t] else Idle
  }

  function To(s: State, t: Thread, pc: Pc): State {
    s.(threads := s.threads[t := pc])
  }

  function Unlock(s: State): State {
    s.(lock := None)
  }

  predicate HasPermit(s: State) {
    s.available != [] || s.total < s.max
  }

  ghost predicate Sleeps(s: State) {
    exists t: Thread :: PcOf(s, t).Sleeping?
  }

  predicate Owning(g: Guard) {
    g.attached && g.slot.Some?
  }

  function Emptied(g: Guard): Guard {
    Guard(false, None, g.healthy)
  }

  /** A new guard for a slot. */
  function Lend(s: State, g: GuardId, slot: Slot): State {
    s.(guards := s.guards[g := Guard(true, Some(slot), true)], lent := s.lent + 1)
  }

  /** The pool as the constructor leaves it; zero connections are refused. */
  function Init(max: nat): (r: Result<State>)
    ensures r.Ok? <==> max > 0
    ensures r.Ok? ==> Inv(r.value) && r.value.max == max && r.value.total == 0 && !Sleeps(r.value)
  {
    if max == 0 then Err(-1)
    else
      var s := State(max, None, [], 0, map[], map[], 0, {}, 0, 0);
      Ok(s)
  }

  ghost function Step(s: State, e: Event): State {
    match e
    case Enter(t, kind) =>
      if PcOf(s, t).Idle? && !kind.Expired? then To(s, t, Entering(kind)) else s
    case Lock(t) => LockStep(s, t)
    case Check(t) =>
      if !PcOf(s, t).Checking? then s
      else if HasPermit(s) then To(s, t, Granted)
      else
        var kind := PcOf(s, t).kind;
        Unlock(To(s, t, if kind.Blocking? || kind.Timed? then Sleeping(kind) else Idle))
    case Acquire(t, g) =>
      if !PcOf(s, t).Granted? || g in s.guards then s
      else if s.available != [] then
        var n := |s.available| - 1;
        Unlock(To(Lend(s.(available := s.available[..n]), g, s.available[n]), t, Idle))
      else Unlock(To(s.(total := s.total + 1), t, Connecting))
    case Connected(t, g) =>
      if !PcOf(s, t).Connecting? || g in s.guards then s
      else To(Lend(s.(nextSlot := s.nextSlot + 1), g, s.nextSlot), t, Idle)
    case ConnectFailed(t) =>
      if PcOf(s, t).Connecting? then To(s, t, Failing) else s
    case GiveBack(t) =>
      if PcOf(s, t).Cancelling? then To(s.(total := s.total - 1), t, Notifying) else s
    case Put(t) =>
      if PcOf(s, t).Putting? then To(PutBack(s, PcOf(s, t).slot, PcOf(s, t).discard), t, Notifying) else s
    case Notify(t, w) =>
      if !PcOf(s, t).Notifying? then s
      else if !Sleeps(s) then Unlock(To(s, t, Idle))
      else if PcOf(s, w).Sleeping? then Unlock(To(To(s, w, Notified(PcOf(s, w).kind)), t, Idle))
      else s
    case TimeOut(t) =>
      if PcOf(s, t) == Sleeping(Timed) then To(s, t, Awake(Expired)) else s
    case Spurious(t) =>
      if PcOf(s, t).Sleeping? then To(s, t, Awake(PcOf(s, t).kind)) else s
    case MoveConstruct(g, h) =>
      if g in s.guards && h !in s.guards then s.(guards := s.guards[h := s.guards[g]][g := Emptied(s.guards[g])]) else s
    case MoveAssign(t, g, h, connected) =>
      if !PcOf(s, t).Idle? || g !in s.guards || h !in s.guards || g == h then s
      else Release(s.(guards := s.guards[g := s.guards[h]][h := Emptied(s.guards[h])]), t, s.guards[g], connected)
    case Destroy(t, g, connected) =>
      if !PcOf(s, t).Idle? || g !in s.guards then s
      else Release(s.(guards := s.guards - {g}), t, s.guards[g], connected)
    case MarkUnhealthy(g) =>
      if g in s.guards then s.(guards := s.guards[g := s.guards[g].(healthy := false)]) else s
  }

  /** A guard that owns a slot returns it; any other does nothing. */
  function Release(s: State, t: Thread, guard: Guard, connected: bool): State {
    if Owning(guard) then To(s, t, Returning(guard.slot.value, !guard.healthy || !connected)) else s
  }

  function LockStep(s: State, t: Thread): State {
    if s.lock.Some? then s
    else
      match PcOf(s, t)
      case Entering(kind) => To(s, t, Checking(kind)).(lock := Some(t))
      case Notified(kind) => To(s, t, Checking(kind)).(lock := Some(t))
      case Awake(kind) => To(s, t, Checking(kind)).(lock := Some(t))
      case Failing => To(s, t, Cancelling).(lock := Some(t))
      case Returning(slot, discard) => To(s, t, Putting(slot, discard)).(lock := Some(t))
      case _ => s
  }

  /** The decision of return_slot under the lock. */
  function PutBack(s: State, slot: Slot, discard: bool): State {
    if discard then s.(total := s.total - 1, gone := s.gone + {slot}, returned := s.returned + 1)
    else s.(available := s.available + [slot], returned := s.returned + 1)
  }

  ghost function Run(s: State, events: seq<Event>): State {
    if events == [] then s else Step(Run(s, events[..|events| - 1]), events[|events| - 1])
  }

  // -------------------------------------------------------------- invariants

  predicate IsNotified(pc: Pc) { pc.Notified? }
  predicate IsDeciding(pc: Pc) { pc.Checking? || pc.Granted? || pc.Notifying? }
  predicate IsPending(pc: Pc) { pc.Connecting? || pc.Failing? || pc.Cancelling? }
  predicate IsReturning(pc: Pc) { pc.Returning? || pc.Putting? }
  predicate HoldsLock(pc: Pc) {
    pc.Checking? || pc.Granted? || pc.Cancelling? || pc.Putting? || pc.Notifying?
  }

  function Where<V>(m: map<nat, V>, p: V -> bool): set<nat> {
    set k | k in m && p(m[k])
  }

  function Count<V>(m: map<nat, V>, p: V -> bool): nat {
    |Where(m, p)|
  }

  function Borrowed(s: State): nat {
    Count(s.threads, IsReturning) + Count(s.guards, Owning)
  }

  /** Permits left: idle connections and connections not made yet. */
  function Permits(s: State): int {
    |s.available| + s.max - s.total
  }

  /** Notified threads, and the one about to decide. */
  function Wakers(s: State): nat {
    Count(s.threads, IsNotified) + Count(s.threads, IsDeciding)
  }

  ghost predicate Mutex(s: State) {
    && (forall t: Thread :: HoldsLock(PcOf(s, t)) <==> s.lock == Some(t))
    && (forall t: Thread :: PcOf(s, t).Granted? ==> HasPermit(s))
  }

  /** Every connection counted is idle, borrowed or being made. */
  ghost predicate Conserved(s: State) {
    && s.total == |s.available| + Borrowed(s) + Count(s.threads, IsPending)
    && s.total <= s.max
    && s.lent == s.returned + Borrowed(s)
  }

  /** A thread sleeps only while every free permit has a notified thread coming
      for it, not counting one permit that the thread inside the lock is about
      to take or to announce. */
  ghost predicate NoLostWakeup(s: State) {
    Sleeps(s) ==> Wakers(s) >= Permits(s)
  }

  datatype Owner = Shelf(i: nat) | ByGuard(g: GuardId) | ByThread(t: Thread)

  predicate Owns(s: State, a: Owner, slot: Slot) {
    match a
    case Shelf(i) => i < |s.available| && s.available[i] == slot
    case ByGuard(g) => g in s.guards && s.guards[g].slot == Some(slot)
    case ByThread(t) => IsReturning(PcOf(s, t)) && PcOf(s, t).slot == slot
  }

  /** A moved-from guard has neither pool nor slot. */
  ghost predicate Attached(s: State) {
    forall g :: g in s.guards ==> (s.guards[g].attached <==> s.guards[g].slot.Some?)
  }

  /** Every slot made and not destroyed has exactly one owner. */
  ghost predicate OneOwner(s: State) {
    && (forall a, b, slot: Slot :: Owns(s, a, slot) && Owns(s, b, slot) ==> a == b)
    && (forall a, slot: Slot :: Owns(s, a, slot) ==> slot < s.nextSlot && slot !in s.gone)
    && (forall slot: Slot :: slot < s.nextSlot && slot !in s.gone ==> exists a :: Owns(s, a, slot))
    && (forall slot: Slot :: slot in s.gone ==> slot < s.nextSlot)
    && Attached(s)
  }

  ghost predicate Inv(s: State) {
    Mutex(s) && Conserved(s) && NoLostWakeup(s) && OneOwner(s)
  }

  // ------------------------------------------------------------------ proofs

  lemma CountUpdate<V>(m: map<nat, V>, k: nat, v: V, p: V -> bool)
    ensures Count(m[k := v], p) == Count(m, p) - (if k in m && p(m[k]) then 1 else 0) + (if p(v) then 1 else 0)
  {
    var others := Where(m, p) - {k};
    assert Where(m[k := v], p) == if p(v) then others + {k} else others;
    assert Where(m, p) == if k in m && p(m[k]) then others + {k} else others;
    OneMore(others, k);
  }

  lemma OneMore(others: set<nat>, k: nat)
    requires k !in others
    ensures |others + {k}| == |others| + 1
  {
  }

  lemma CountRemove<V>(m: map<nat, V>, k: nat, p: V -> bool)
    requires k in m
    ensures Count(m - {k}, p) == Count(m, p) - (if p(m[k]) then 1 else 0)
  {
    var others := Where(m, p) - {k};
    assert Where(m - {k}, p) == others;
    assert Where(m, p) == if p(m[k]) then others + {k} else others;
  }

  /** What moving a thread does to every count. */
  lemma Moved(s: State, t: Thread, pc: Pc)
    ensures var m, m' := s.threads, s.threads[t := pc];
            && Count(m', IsNotified) ==
               Count(m, IsNotified) - (if PcOf(s, t).Notified? then 1 else 0) + (if pc.Notified? then 1 else 0)
            && Count(m', IsDeciding) ==
               Count(m, IsDeciding) - (if IsDeciding(PcOf(s, t)) then 1 else 0) + (if IsDeciding(pc) then 1 else 0)
            && Count(m', IsPending) ==
               Count(m, IsPending) - (if IsPending(PcOf(s, t)) then 1 else 0) + (if IsPending(pc) then 1 else 0)
            && Count(m', IsReturning) ==
               Count(m, IsReturning) - (if IsReturning(PcOf(s, t)) then 1 else 0) + (if IsReturning(pc) then 1 else 0)
  {
    CountUpdate(s.threads, t, pc, IsNotified);
    CountUpdate(s.threads, t, pc, IsDeciding);
    CountUpdate(s.threads, t, pc, IsPending);
    CountUpdate(s.threads, t, pc, IsReturning);
  }

  lemma MutexKept(s: State, e: Event)
    requires Mutex(s)
    ensures Mutex(Step(s, e))
  {
    if OnGuards(e) {
      GuardsKeepMutex(s, e);
    }
  }

  lemma GuardsKeepMutex(s: State, e: Event)
    requires Mutex(s) && OnGuards(e)
    ensures Mutex(Step(s, e))
  {
  }

  lemma GuardUpdated(s: State, g: GuardId, guard: Guard)
    ensures Count(s.guards[g := guard], Owning) ==
            Count(s.guards, Owning)
            - (if g in s.guards && Owning(s.guards[g]) then 1 else 0)
            + (if Owning(guard) then 1 else 0)
  {
    CountUpdate(s.guards, g, guard, Owning);
  }

  lemma GuardMoved(s: State, g: GuardId, h: GuardId)
    requires h in s.guards && g != h
    ensures Count(s.guards[g := s.guards[h]][h := Emptied(s.guards[h])], Owning) ==
            Count(s.guards, Owning) - (if g in s.guards && Owning(s.guards[g]) then 1 else 0)
  {
    CountUpdate(s.guards, g, s.guards[h], Owning);
    CountUpdate(s.guards[g := s.guards[h]], h, Emptied(s.guards[h]), Owning);
  }

  lemma ConservedKept(s: State, e: Event)
    requires Mutex(s) && Conserved(s)
    ensures Conserved(Step(s, e))
  {
    if e.Acquire? {
      AcquireConserves(s, e);
    } else if e.Connected? {
      ConnectedConserves(s, e);
    } else if e.MoveConstruct? || e.MoveAssign? || e.Destroy? || e.MarkUnhealthy? {
      GuardConserves(s, e);
    } else if e.Notify? {
      NotifyConserves(s, e);
    } else if e.GiveBack? || e.Put? {
      ReturnConserves(s, e);
    } else {
      ThreadConserves(s, e);
    }
  }

  lemma AcquireConserves(s: State, e: Event)
    requires Mutex(s) && Conserved(s) && e.Acquire?
    ensures Conserved(Step(s, e))
  {
    Moved(s, e.t, Idle);
    Moved(s, e.t, Connecting);
    if e.g !in s.guards && s.available != [] {
      GuardUpdated(s, e.g, Guard(true, Some(s.available[|s.available| - 1]), true));
    }
  }

  lemma ConnectedConserves(s: State, e: Event)
    requires Conserved(s) && e.Connected?
    ensures Conserved(Step(s, e))
  {
    Moved(s, e.t, Idle);
    if e.g !in s.guards {
      GuardUpdated(s, e.g, Guard(true, Some(s.nextSlot), true));
    }
  }

  lemma GuardConserves(s: State, e: Event)
    requires Conserved(s) && (e.MoveConstruct? || e.MoveAssign? || e.Destroy? || e.MarkUnhealthy?)
    ensures Conserved(Step(s, e))
  {
    if e.g in s.guards {
      match e
      case MoveConstruct(g, h) =>
        if h !in s.guards {
          GuardMoved(s, h, g);
        }
      case MoveAssign(t, g, h, connected) => MoveAssignConserves(s, e);
      case Destroy(t, g, connected) =>
        Moved(s, t, PcOf(Step(s, e), t));
        CountRemove(s.guards, g, Owning);
      case MarkUnhealthy(g) =>
        GuardUpdated(s, g, s.guards[g].(healthy := false));
    }
  }

  lemma MoveAssignConserves(s: State, e: Event)
    requires Conserved(s) && e.MoveAssign? && e.g in s.guards
    ensures Conserved(Step(s, e))
  {
    Moved(s, e.t, PcOf(Step(s, e), e.t));
    if e.h in s.guards && e.g != e.h {
      GuardMoved(s, e.g, e.h);
    }
  }

  lemma NotifyConserves(s: State, e: Event)
    requires Conserved(s) && e.Notify?
    ensures Conserved(Step(s, e))
  {
    Moved(s, e.t, Idle);
    if PcOf(s, e.w).Sleeping? {
      var woken := Notified(PcOf(s, e.w).kind);
      Moved(s, e.w, woken);
      Moved(To(s, e.w, woken), e.t, Idle);
    }
  }

  lemma ThreadConserves(s: State, e: Event)
    requires Mutex(s) && Conserved(s)
    requires e.Enter? || e.Lock? || e.Check? || e.ConnectFailed? || e.TimeOut? || e.Spurious?
    ensures Conserved(Step(s, e))
  {
    Moved(s, e.t, PcOf(Step(s, e), e.t));
  }

  lemma ReturnConserves(s: State, e: Event)
    requires Conserved(s) && (e.GiveBack? || e.Put?)
    ensures Conserved(Step(s, e))
  {
    Moved(s, e.t, Notifying);
  }

  // -------------------------------------------------- a counting semaphore

  /** The events that take a permit, and those that give one. */
  predicate Takes(s: State, e: Event) {
    e.Acquire? && PcOf(s, e.t).Granted? && e.g !in s.guards
  }

  predicate Gives(s: State, e: Event) {
    (e.GiveBack? && PcOf(s, e.t).Cancelling?) || (e.Put? && PcOf(s, e.t).Putting?)
  }

  /** The pool refines a semaphore of `max` permits: a step takes one that is
      there, gives one that is out, or leaves them alone. */
  lemma RefinesSemaphore(s: State, e: Event)
    requires Inv(s)
    ensures 0 <= Permits(s) <= s.max && Step(s, e).max == s.max
    ensures Permits(s) == s.max - Borrowed(s) - Count(s.threads, IsPending)
    ensures Takes(s, e) ==> Permits(s) > 0 && Permits(Step(s, e)) == Permits(s) - 1
    ensures Gives(s, e) ==> Permits(s) < s.max && Permits(Step(s, e)) == Permits(s) + 1
    ensures !Takes(s, e) && !Gives(s, e) ==> Permits(Step(s, e)) == Permits(s)
  {
    if Gives(s, e) {
      InUse(s, e.t);
    }
  }

  /** A thread that returns a slot, or makes one, counts as one connection, so
      the count can drop and the idle list has room. */
  lemma InUse(s: State, t: Thread)
    requires Conserved(s)
    ensures IsPending(PcOf(s, t)) || IsReturning(PcOf(s, t)) ==> s.total > |s.available| && |s.available| < s.max
  {
    if IsPending(PcOf(s, t)) {
      assert t in Where(s.threads, IsPending);
    }
    if IsReturning(PcOf(s, t)) {
      assert t in Where(s.threads, IsReturning);
    }
  }

  // ---------------------------------------------------------------- wakeups

  lemma WakeupKept(s: State, e: Event)
    requires Inv(s)
    ensures NoLostWakeup(Step(s, e))
  {
    RefinesSemaphore(s, e);
    var s' := Step(s, e);
    if Sleeps(s') {
      if !Sleeps(s) {
        var t: Thread :| PcOf(s', t).Sleeping?;
        GoesToSleep(s, e, t);
      } else {
        WakersKept(s, e);
      }
    }
  }

  /** They change as permits do, except while no permit is free. */
  lemma WakersKept(s: State, e: Event)
    requires Mutex(s) && Sleeps(s)
    ensures var d := Wakers(Step(s, e)) - Wakers(s);
            if Takes(s, e) then d == -1 else if Gives(s, e) then d == 1 else d >= 0 || Permits(Step(s, e)) <= 0
  {
    if e.Notify? {
      NotifyMovesOne(s, e);
    } else if e.Lock? || e.Check? || e.Acquire? || e.GiveBack? || e.Put? {
      Moved(s, e.t, PcOf(Step(s, e), e.t));
    } else {
      OthersMoveNone(s, e);
    }
  }

  lemma OthersMoveNone(s: State, e: Event)
    requires !e.Notify? && !e.Lock? && !e.Check? && !e.Acquire? && !e.GiveBack? && !e.Put?
    ensures Wakers(Step(s, e)) == Wakers(s)
  {
    if !e.MoveConstruct? && !e.MarkUnhealthy? {
      Moved(s, e.t, PcOf(Step(s, e), e.t));
    }
  }

  lemma NotifyMovesOne(s: State, e: Event)
    requires Sleeps(s) && e.Notify?
    ensures Wakers(Step(s, e)) == Wakers(s)
  {
    if PcOf(s, e.w).Sleeping? {
      var woken := Notified(PcOf(s, e.w).kind);
      Moved(s, e.w, woken);
      Moved(To(s, e.w, woken), e.t, Idle);
    }
  }

  /** A thread goes to sleep only when no permit is free, and never in a try. */
  lemma GoesToSleep(s: State, e: Event, t: Thread)
    requires Inv(s) && !PcOf(s, t).Sleeping? && PcOf(Step(s, e), t).Sleeping?
    ensures Permits(s) == 0 && Permits(Step(s, e)) == 0
    ensures PcOf(Step(s, e), t) == Sleeping(Blocking) || PcOf(Step(s, e), t) == Sleeping(Timed)
  {
    RefinesSemaphore(s, e);
  }

  predicate Borrowing(pc: Pc) {
    pc.Entering? || pc.Checking? || pc.Sleeping? || pc.Notified? || pc.Awake?
  }

  /** A borrow gives up only under the lock, with no permit free, and only in a try or
      after its deadline. */
  lemma GivesUp(s: State, e: Event, t: Thread)
    requires Inv(s) && Borrowing(PcOf(s, t)) && PcOf(Step(s, e), t).Idle?
    ensures s.lock == Some(t) && Permits(s) == 0 && (PcOf(s, t).kind.Trying? || PcOf(s, t).kind.Expired?)
  {
    RefinesSemaphore(s, e);
  }

  /** A borrow stays what it is, but for the deadline of a timed one that sleeps. */
  lemma KindKept(s: State, e: Event, t: Thread)
    requires Borrowing(PcOf(s, t)) && Borrowing(PcOf(Step(s, e), t))
    ensures || PcOf(Step(s, e), t).kind == PcOf(s, t).kind
            || (e == TimeOut(t) && PcOf(s, t) == Sleeping(Timed) && PcOf(Step(s, e), t) == Awake(Expired))
  {
  }

  /** Past the deadline, and still in the borrow. */
  predicate Late(pc: Pc) {
    pc == Awake(Expired) || pc == Checking(Expired)
  }

  /** From its deadline on a timed borrow sleeps no more, whatever the others do. */
  lemma {:induction false} Deadline(s: State, t: Thread, events: seq<Event>)
    requires PcOf(s, t) == Sleeping(Timed)
    requires forall n :: 0 <= n <= |events| ==> Borrowing(PcOf(Run(Step(s, TimeOut(t)), events[..n]), t))
    ensures Late(PcOf(Run(Step(s, TimeOut(t)), events), t))
    decreases |events|
  {
    var s' := Step(s, TimeOut(t));
    if events != [] {
      var init := events[..|events| - 1];
      assert forall n :: 0 <= n <= |init| ==> init[..n] == events[..n];
      Deadline(s, t, init);
      assert events[..|events|] == events;
      LateStays(Run(s', init), events[|events| - 1], t);
    }
  }

  lemma LateStays(s: State, e: Event, t: Thread)
    requires Late(PcOf(s, t)) && Borrowing(PcOf(Step(s, e), t))
    ensures Late(PcOf(Step(s, e), t))
  {
    KindKept(s, e, t);
  }

  /** It looks once more, and returns without a connection if none is free or to be
      made. */
  lemma TimesOut(s: State, t: Thread)
    requires PcOf(s, t) == Checking(Expired) || PcOf(s, t) == Checking(Trying)
    ensures PcOf(Step(s, Check(t)), t).Idle? <==> s.available == [] && s.total >= s.max
  {
  }

  /** A borrow that looks while a permit is free is granted one. */
  lemma GrantedIfFree(s: State, t: Thread)
    requires Inv(s) && PcOf(s, t).Checking? && Permits(s) > 0
    ensures PcOf(Step(s, Check(t)), t).Granted?
  {
    RefinesSemaphore(s, Check(t));
  }

  // -------------------------------------------------------------- ownership

  predicate Moves(s: State, e: Event) {
    match e
    case MoveConstruct(g, h) => g in s.guards && h !in s.guards
    case MoveAssign(t, g, h, connected) => PcOf(s, t).Idle? && g in s.guards && h in s.guards && g != h
    case Destroy(t, g, connected) => PcOf(s, t).Idle? && g in s.guards
    case _ => false
  }

  /** Who owns, after the event, what `a` owned before. */
  function Heir(s: State, e: Event, a: Owner): Owner {
    match e
    case Acquire(t, g) => if Takes(s, e) && s.available != [] && a == Shelf(|s.available| - 1) then ByGuard(g) else a
    case Put(t) => if PcOf(s, t).Putting? && a == ByThread(t) then Shelf(|s.available|) else a
    case MoveConstruct(g, h) => if Moves(s, e) && a == ByGuard(g) then ByGuard(h) else a
    case MoveAssign(t, g, h, connected) =>
      if !Moves(s, e) then a else if a == ByGuard(h) then ByGuard(g) else if a == ByGuard(g) then ByThread(t) else a
    case Destroy(t, g, connected) => if Moves(s, e) && a == ByGuard(g) then ByThread(t) else a
    case _ => a
  }

  predicate OnGuards(e: Event) {
    e.MoveConstruct? || e.MoveAssign? || e.Destroy? || e.MarkUnhealthy?
  }

  lemma Forward(s: State, e: Event, a: Owner, slot: Slot)
    requires Attached(s) && Owns(s, a, slot)
    ensures slot in Step(s, e).gone || Owns(Step(s, e), Heir(s, e, a), slot)
  {
    if OnGuards(e) {
      GuardForward(s, e, a, slot);
    }
  }

  lemma GuardForward(s: State, e: Event, a: Owner, slot: Slot)
    requires OnGuards(e) && Attached(s) && Owns(s, a, slot)
    ensures Owns(Step(s, e), Heir(s, e, a), slot)
  {
  }

  lemma Backward(s: State, e: Event, b: Owner, slot: Slot) returns (a: Owner)
    requires Attached(s) && Owns(Step(s, e), b, slot) && !IsNew(s, e, b)
    ensures Owns(s, a, slot) && Heir(s, e, a) == b
  {
    a := b;
    if OnGuards(e) {
      a := GuardBackward(s, e, b, slot);
    } else if Takes(s, e) && b == ByGuard(e.g) {
      a := Shelf(|s.available| - 1);
    } else if e.Put? && PcOf(s, e.t).Putting? && b == Shelf(|s.available|) {
      a := ByThread(e.t);
    }
  }

  lemma GuardBackward(s: State, e: Event, b: Owner, slot: Slot) returns (a: Owner)
    requires OnGuards(e) && Attached(s) && Owns(Step(s, e), b, slot)
    ensures Owns(s, a, slot) && Heir(s, e, a) == b
  {
    a := b;
    if Moves(s, e) {
      match e
      case MoveConstruct(g, h) => a := if b == ByGuard(h) then ByGuard(g) else b;
      case MoveAssign(t, g, h, connected) =>
        a := if b == ByGuard(g) then ByGuard(h) else if b == ByThread(t) then ByGuard(g) else b;
      case Destroy(t, g, connected) => a := if b == ByThread(t) then ByGuard(g) else b;
    }
  }

  /** The owner of a slot just connected. */
  predicate IsNew(s: State, e: Event, b: Owner) {
    e.Connected? && PcOf(s, e.t).Connecting? && e.g !in s.guards && b == ByGuard(e.g)
  }

  lemma NothingForgotten(s: State, e: Event)
    ensures s.nextSlot <= Step(s, e).nextSlot <= s.nextSlot + 1 && s.gone <= Step(s, e).gone
    ensures forall b, slot: Slot :: IsNew(s, e, b) && Owns(Step(s, e), b, slot) ==>
              slot == s.nextSlot < Step(s, e).nextSlot && Step(s, e).gone == s.gone
    ensures Step(s, e).nextSlot > s.nextSlot ==> e.Connected? && Owns(Step(s, e), ByGuard(e.g), s.nextSlot)
    ensures forall slot :: slot in Step(s, e).gone && slot !in s.gone ==>
              e.Put? && Owns(s, ByThread(e.t), slot) && PcOf(s, e.t).Putting? && Step(s, e).available == s.available
  {
  }

  lemma OneOwnerEach(s: State, e: Event, a: Owner, b: Owner, slot: Slot)
    requires OneOwner(s) && Owns(Step(s, e), a, slot) && Owns(Step(s, e), b, slot)
    ensures a == b
  {
    NothingForgotten(s, e);
    if !IsNew(s, e, a) {
      var a0 := Backward(s, e, a, slot);
    }
    if !IsNew(s, e, b) {
      var b0 := Backward(s, e, b, slot);
    }
  }

  lemma OwnedIsLive(s: State, e: Event, a: Owner, slot: Slot)
    requires OneOwner(s) && Owns(Step(s, e), a, slot)
    ensures slot < Step(s, e).nextSlot && slot !in Step(s, e).gone
  {
    NothingForgotten(s, e);
    if !IsNew(s, e, a) {
      var a0 := Backward(s, e, a, slot);
    }
  }

  lemma OwnerKept(s: State, e: Event)
    requires OneOwner(s)
    ensures OneOwner(Step(s, e))
  {
    var s' := Step(s, e);
    forall a, b, slot: Slot | Owns(s', a, slot) && Owns(s', b, slot) ensures a == b {
      OneOwnerEach(s, e, a, b, slot);
    }
    forall a, slot: Slot | Owns(s', a, slot) ensures slot < s'.nextSlot && slot !in s'.gone {
      OwnedIsLive(s, e, a, slot);
    }
    forall slot: Slot | slot < s'.nextSlot && slot !in s'.gone ensures exists a :: Owns(s', a, slot) {
      NothingForgotten(s, e);
      if slot < s.nextSlot {
        var a :| Owns(s, a, slot);
        Forward(s, e, a, slot);
      }
    }
    NothingForgotten(s, e);
    AttachedKept(s, e);
  }

  lemma AttachedKept(s: State, e: Event)
    requires Attached(s)
    ensures Attached(Step(s, e))
  {
  }

  // ----------------------------------------------------------------- results

  /** Every run of every number of threads keeps the invariants. */
  lemma {:induction false} EveryRun(max: nat, events: seq<Event>)
    requires max > 0
    ensures var s := Run(Init(max).value, events); Inv(s) && s.max == max
  {
    if events != [] {
      var before, e := events[..|events| - 1], events[|events| - 1];
      EveryRun(max, before);
      var s := Run(Init(max).value, before);
      MutexKept(s, e);
      ConservedKept(s, e);
      WakeupKept(s, e);
      OwnerKept(s, e);
      RefinesSemaphore(s, e);
    }
  }

  /** No lost wakeups: whenever the mutex is free, either no thread sleeps or the
      notified threads that have yet to look again cover the free permits. */
  lemma NoLostWakeups(max: nat, events: seq<Event>)
    requires max > 0
    ensures var s := Run(Init(max).value, events);
            s.lock.None? && Sleeps(s) ==> Count(s.threads, IsNotified) >= |s.available| + (s.max - s.total)
  {
    EveryRun(max, events);
    var s := Run(Init(max).value, events);
    forall t | t in Where(s.threads, IsDeciding) ensures s.lock == Some(t) {
      assert HoldsLock(PcOf(s, t));
    }
    assert s.lock.None? ==> Where(s.threads, IsDeciding) == {};
  }

  /** So if a thread sleeps beside a free permit, some notified thread gets one
      as soon as it is given the mutex and looks. */
  lemma SomeoneIsComing(max: nat, events: seq<Event>) returns (t: Thread)
    requires max > 0
    requires var s := Run(Init(max).value, events); s.lock.None? && Sleeps(s) && HasPermit(s)
    ensures var s := Run(Init(max).value, events);
            PcOf(s, t).Notified? && PcOf(Step(Step(s, Lock(t)), Check(t)), t).Granted?
  {
    EveryRun(max, events);
    NoLostWakeups(max, events);
    var s := Run(Init(max).value, events);
    var someone :| someone in Where(s.threads, IsNotified);
    t := someone;
  }

  /** The noexcept return: the reserved capacity holds the slot pushed back, and
      the count that is lowered is positive. */
  lemma ReturnIsSafe(max: nat, events: seq<Event>, t: Thread)
    requires max > 0
    ensures var s := Run(Init(max).value, events);
            PcOf(s, t).Putting? || PcOf(s, t).Cancelling? ==> |s.available| + 1 <= max && s.total >= 1
  {
    EveryRun(max, events);
    InUse(Run(Init(max).value, events), t);
  }
}
