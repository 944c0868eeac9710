/** What becomes of a connection when its guard lets go of it, told by the events
    of a run alone: which borrow it was, whether it was marked unhealthy since, and
    whether it was still connected. */
module PoolHealth {
  import opened Prelude
  import opened Pool

  /** The event hands the slot out: the idle one that came last, or a new one. */
  ghost predicate Lends(s: State, e: Event, slot: Slot) {
    || (e.Acquire? && Takes(s, e) && s.available != [] && s.available[|s.available| - 1] == slot)
    || (e.Connected? && PcOf(s, e.t).Connecting? && e.g !in s.guards && s.nextSlot == slot)
  }

  ghost predicate Holds(s: State, g: GuardId, slot: Slot) {
    g in s.guards && s.guards[g].slot == Some(slot)
  }

  /** A guard is marked unhealthy while it holds the slot. */
  ghost predicate Marks(s: State, e: Event, slot: Slot) {
    e.MarkUnhealthy? && Holds(s, e.g, slot)
  }

  /** The guard that holds the slot is destroyed or assigned over. */
  ghost predicate LetsGo(s: State, e: Event, slot: Slot) {
    && (e.Destroy? || e.MoveAssign?) && PcOf(s, e.t).Idle? && Holds(s, e.g, slot)
    && (e.MoveAssign? ==> e.h in s.guards && e.h != e.g)
  }

  /** The slot is unfit for another borrow: since it was last handed out, a guard
      that held it was marked unhealthy, or let go of it when it was not connected. */
  ghost predicate Unfit(max: nat, events: seq<Event>, slot: Slot)
    requires max > 0
  {
    if events == [] then false
    else
      var before, e := events[..|events| - 1], events[|events| - 1];
      var s := Run(Init(max).value, before);
      if Lends(s, e, slot) then false
      else Unfit(max, before, slot) || Marks(s, e, slot) || (LetsGo(s, e, slot) && !e.connected)
  }

  /** The flags of the pool's objects say just that of a slot: an idle slot is fit, and
      only an unfit one is gone. */
  ghost predicate FlagsAgree(s: State, slot: Slot, unfit: bool) {
    && (forall g :: Holds(s, g, slot) ==> (s.guards[g].healthy <==> !unfit))
    && (forall t :: Owns(s, ByThread(t), slot) ==> (PcOf(s, t).discard <==> unfit))
    && (forall i :: Owns(s, Shelf(i), slot) ==> !unfit)
    && (slot in s.gone ==> unfit)
  }

  /** What one event does to the fitness of a slot. */
  ghost predicate UnfitAfter(s: State, e: Event, slot: Slot, unfit: bool) {
    !Lends(s, e, slot) && (unfit || Marks(s, e, slot) || (LetsGo(s, e, slot) && !e.connected))
  }

  lemma FlagsKept(s: State, e: Event, slot: Slot, unfit: bool)
    requires Inv(s) && FlagsAgree(s, slot, unfit)
    ensures FlagsAgree(Step(s, e), slot, UnfitAfter(s, e, slot, unfit))
  {
    var s', unfit' := Step(s, e), UnfitAfter(s, e, slot, unfit);
    forall g | Holds(s', g, slot) ensures s'.guards[g].healthy <==> !unfit' {
      assert Owns(s', ByGuard(g), slot);
      if !IsNew(s, e, ByGuard(g)) {
        var a := Backward(s, e, ByGuard(g), slot);
        GuardAgrees(s, e, a, g, slot, unfit);
      }
    }
    forall t | Owns(s', ByThread(t), slot) ensures PcOf(s', t).discard <==> unfit' {
      var a := Backward(s, e, ByThread(t), slot);
      ThreadAgrees(s, e, a, t, slot, unfit);
    }
    forall i | Owns(s', Shelf(i), slot) ensures !unfit' {
      var a := Backward(s, e, Shelf(i), slot);
      ShelfAgrees(s, e, a, i, slot, unfit);
    }
    if slot in s'.gone {
      GoneAgrees(s, e, slot, unfit);
    }
  }

  lemma GuardAgrees(s: State, e: Event, a: Owner, g: GuardId, slot: Slot, unfit: bool)
    requires OneOwner(s) && FlagsAgree(s, slot, unfit) && Holds(Step(s, e), g, slot) && !IsNew(s, e, ByGuard(g))
    requires Owns(s, a, slot) && Heir(s, e, a) == ByGuard(g)
    ensures Step(s, e).guards[g].healthy <==> !UnfitAfter(s, e, slot, unfit)
  {
    OnlyOwner(s, a, slot);
    if OnGuards(e) {
      MovedGuardAgrees(s, e, a, g, slot, unfit);
    }
  }

  lemma MovedGuardAgrees(s: State, e: Event, a: Owner, g: GuardId, slot: Slot, unfit: bool)
    requires OnGuards(e) && OneOwner(s) && FlagsAgree(s, slot, unfit) && Holds(Step(s, e), g, slot)
    requires Owns(s, a, slot) && Heir(s, e, a) == ByGuard(g)
    ensures Step(s, e).guards[g].healthy <==> !UnfitAfter(s, e, slot, unfit)
  {
    OnlyOwner(s, a, slot);
    assert Holds(s, a.g, slot);
  }

  lemma ThreadAgrees(s: State, e: Event, a: Owner, t: Thread, slot: Slot, unfit: bool)
    requires OneOwner(s) && FlagsAgree(s, slot, unfit) && Owns(Step(s, e), ByThread(t), slot)
    requires Owns(s, a, slot) && Heir(s, e, a) == ByThread(t)
    ensures PcOf(Step(s, e), t).discard <==> UnfitAfter(s, e, slot, unfit)
  {
    OnlyOwner(s, a, slot);
    if OnGuards(e) {
      MovedThreadAgrees(s, e, a, t, slot, unfit);
    }
  }

  lemma MovedThreadAgrees(s: State, e: Event, a: Owner, t: Thread, slot: Slot, unfit: bool)
    requires OnGuards(e) && OneOwner(s) && FlagsAgree(s, slot, unfit) && Owns(Step(s, e), ByThread(t), slot)
    requires Owns(s, a, slot) && Heir(s, e, a) == ByThread(t)
    ensures PcOf(Step(s, e), t).discard <==> UnfitAfter(s, e, slot, unfit)
  {
    OnlyOwner(s, a, slot);
    assert a.ByGuard? ==> Holds(s, a.g, slot);
  }

  lemma ShelfAgrees(s: State, e: Event, a: Owner, i: nat, slot: Slot, unfit: bool)
    requires OneOwner(s) && FlagsAgree(s, slot, unfit) && Owns(Step(s, e), Shelf(i), slot)
    requires Owns(s, a, slot) && Heir(s, e, a) == Shelf(i)
    ensures !UnfitAfter(s, e, slot, unfit)
  {
    OnlyOwner(s, a, slot);
  }

  lemma GoneAgrees(s: State, e: Event, slot: Slot, unfit: bool)
    requires OneOwner(s) && FlagsAgree(s, slot, unfit) && slot in Step(s, e).gone
    ensures UnfitAfter(s, e, slot, unfit)
  {
    NothingForgotten(s, e);
    if slot !in s.gone {
      OnlyOwner(s, ByThread(e.t), slot);
    } else if Lends(s, e, slot) && s.available != [] {
      assert Owns(s, Shelf(|s.available| - 1), s.available[|s.available| - 1]);
    }
  }

  /** The owner of a slot is the only one. */
  lemma OnlyOwner(s: State, a: Owner, slot: Slot)
    requires OneOwner(s) && Owns(s, a, slot)
    ensures forall g :: Holds(s, g, slot) ==> a == ByGuard(g)
    ensures forall i :: 0 <= i < |s.available| && s.available[i] == slot ==> a == Shelf(i)
    ensures slot < s.nextSlot && slot !in s.gone
  {
    forall g | Holds(s, g, slot) ensures a == ByGuard(g) {
      assert Owns(s, ByGuard(g), slot);
    }
    forall i | 0 <= i < |s.available| && s.available[i] == slot ensures a == Shelf(i) {
      assert Owns(s, Shelf(i), slot);
    }
  }

  lemma {:induction false} FlagsAlwaysAgree(max: nat, events: seq<Event>, slot: Slot)
    requires max > 0
    ensures FlagsAgree(Run(Init(max).value, events), slot, Unfit(max, events, slot))
  {
    if events != [] {
      var before, e := events[..|events| - 1], events[|events| - 1];
      FlagsAlwaysAgree(max, before, slot);
      EveryRun(max, before);
      FlagsKept(Run(Init(max).value, before), e, slot, Unfit(max, before, slot));
    }
  }

  // ----------------------------------------------------------------- results

  /** In every run, a slot that no guard holds and no thread is returning is idle if it
      is fit and gone if it is not. So no idle slot was marked unhealthy, or found
      disconnected, by the last guard that held it. */
  lemma IdleExactlyIfFit(max: nat, events: seq<Event>, slot: Slot)
    requires max > 0
    ensures var s := Run(Init(max).value, events);
            && (slot in s.available ==> !Unfit(max, events, slot))
            && (slot in s.gone ==> Unfit(max, events, slot))
            && (slot < s.nextSlot && (forall g :: !Holds(s, g, slot)) && (forall t :: !Owns(s, ByThread(t), slot)) ==>
                if Unfit(max, events, slot) then slot in s.gone else slot in s.available)
  {
    var s := Run(Init(max).value, events);
    EveryRun(max, events);
    FlagsAlwaysAgree(max, events, slot);
    if slot in s.available {
      var i :| 0 <= i < |s.available| && s.available[i] == slot;
      assert Owns(s, Shelf(i), slot);
    }
    if slot < s.nextSlot && slot !in s.gone {
      var a :| Owns(s, a, slot);
      assert a.ByGuard? ==> Holds(s, a.g, slot);
    }
  }

  /** When a thread puts a slot back, whatever happened since its guard let go of it:
      an unfit one is destroyed and no longer counted, any other becomes the last
      idle slot, which the next borrow gets. */
  lemma PutBackExactlyIfFit(max: nat, events: seq<Event>, t: Thread, slot: Slot)
    requires max > 0
    requires var s := Run(Init(max).value, events); PcOf(s, t).Putting? && PcOf(s, t).slot == slot
    ensures var s := Run(Init(max).value, events);
            var s' := Run(Init(max).value, events + [Put(t)]);
            if Unfit(max, events, slot) then
              slot in s'.gone && s'.available == s.available && s'.total == s.total - 1
            else slot !in s'.gone && s'.available == s.available + [slot] && s'.total == s.total
  {
    assert (events + [Put(t)])[..|events|] == events;
    var s := Run(Init(max).value, events);
    EveryRun(max, events);
    FlagsAlwaysAgree(max, events, slot);
    assert Owns(s, ByThread(t), slot);
  }

  /** With the mutex free, a guard that is destroyed or assigned over has its slot back
      in three steps: idle if and only if it was not marked unhealthy since it was
      borrowed and is still connected. */
  lemma ReleasedSlot(max: nat, events: seq<Event>, e: Event, slot: Slot)
    requires max > 0
    requires var s := Run(Init(max).value, events); s.lock.None? && LetsGo(s, e, slot)
    ensures var s := Run(Init(max).value, events);
            var s' := Run(Init(max).value, events + [e, Lock(e.t), Put(e.t)]);
            if e.connected && !Unfit(max, events, slot) then s'.available == s.available + [slot]
            else slot in s'.gone && s'.available == s.available && s'.total == s.total - 1
  {
    var s := Run(Init(max).value, events);
    var e0, e1 := events + [e], events + [e, Lock(e.t)];
    assert e0[..|events|] == events && e1[..|e0|] == e0 && e1 + [Put(e.t)] == events + [e, Lock(e.t), Put(e.t)];
    EveryRun(max, events);
    assert Run(Init(max).value, e0) == Step(s, e) && Run(Init(max).value, e1) == Step(Step(s, e), Lock(e.t));
    LetGo(s, e, slot);
    PutBackExactlyIfFit(max, e1, e.t, slot);
    assert Unfit(max, e1, slot) <==> Unfit(max, e0, slot);
    assert Unfit(max, e0, slot) <==> UnfitAfter(s, e, slot, Unfit(max, events, slot));
  }

  lemma LetGo(s: State, e: Event, slot: Slot)
    requires Attached(s) && s.lock.None? && LetsGo(s, e, slot)
    ensures var s' := Step(Step(s, e), Lock(e.t));
            && PcOf(s', e.t).Putting? && PcOf(s', e.t).slot == slot && s'.available == s.available
            && s'.total == s.total
  {
  }
}
