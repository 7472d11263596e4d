/** The event primitive of source/Event.h: the shared callback registry (EventImpl),
    the move-only subscription handle (Listener) and the copyable front door (Event).
    The std::shared_ptr owning an EventImpl is modelled by the registry's useCount;
    a std::weak_ptr to it is a plain reference whose lock succeeds while useCount is
    positive. */
module Events {
  import opened Callbacks

  /** The shared registry: entries by id, ids waiting to be erased, and the last id
      handed out. */
  class EventImpl {
    var callbacks: map<int, Callback>
    var erased: seq<int>
    var nextCallbackId: int
    /** Number of Event handles (shared owners) holding this registry. */
    var useCount: int

    /** Ids are handed out from 1 upwards, so every live entry has an id in 1..nextCallbackId. */
    ghost predicate Valid()
      reads this
    {
      nextCallbackId >= 0 && forall k :: k in callbacks ==> 1 <= k <= nextCallbackId
    }

    /** Whether a weak reference to this registry can still be locked. */
    predicate Alive()
      reads this
    {
      useCount > 0
    }

    /** A registry created by make_shared: empty, and owned by one handle. */
    constructor ()
      ensures Valid() && Alive()
      ensures callbacks == map[] && erased == [] && nextCallbackId == 0 && useCount == 1
    {
      callbacks := map[];
      erased := [];
      nextCallbackId := 0;
      useCount := 1;
    }

    /** Erases every pending id from the entries (absent ones are ignored) and empties
        the pending list. */
    method RemoveErased()
      requires Valid()
      modifies this
      ensures Valid()
      ensures callbacks == Purged(old(callbacks), old(erased)) && erased == []
      ensures nextCallbackId == old(nextCallbackId) && useCount == old(useCount)
    {
      for i := 0 to |erased|
        invariant erased == old(erased)
        invariant callbacks == Purged(old(callbacks), erased[..i])
        invariant nextCallbackId == old(nextCallbackId) && useCount == old(useCount)
      {
        assert erased[..i + 1][..i] == erased[..i];
        callbacks := callbacks - {erased[i]};
      }
      assert erased[..|erased|] == erased;
      erased := [];
    }

    /** Purges, then stores f under a fresh id and returns a listener bound to it. */
    method Attach(f: Callback) returns (l: Listener)
      requires Valid()
      modifies this
      ensures Valid() && fresh(l)
      ensures l.event == this && l.id == old(nextCallbackId) + 1 && nextCallbackId == l.id
      ensures l.id != 0 && l.id !in old(callbacks) && l.id !in Purged(old(callbacks), old(erased))
      ensures callbacks == Purged(old(callbacks), old(erased))[l.id := f] && erased == []
      ensures useCount == old(useCount)
    {
      RemoveErased();
      nextCallbackId := nextCallbackId + 1;
      callbacks := callbacks[nextCallbackId := f];
      l := new Listener(this, nextCallbackId);
    }

    /** Purges, then calls every remaining entry once, in ascending id order, with args. */
    method Invoke(args: Args) returns (calls: seq<Invocation>)
      requires Valid()
      modifies this
      ensures Valid()
      ensures callbacks == Purged(old(callbacks), old(erased)) && erased == []
      ensures nextCallbackId == old(nextCallbackId) && useCount == old(useCount)
      ensures calls == Invocations(callbacks, args)
    {
      RemoveErased();
      calls := CallInOrder(callbacks, args);
    }

    /** Schedules id for removal; the entries themselves are left alone. */
    method Remove(id: int)
      modifies this
      ensures erased == old(erased) + [id]
      ensures callbacks == old(callbacks) && nextCallbackId == old(nextCallbackId) && useCount == old(useCount)
    {
      erased := erased + [id];
    }

    /** Purges, then reports how many entries are left. */
    method GetListenersCount() returns (n: nat)
      requires Valid()
      modifies this
      ensures Valid()
      ensures callbacks == Purged(old(callbacks), old(erased)) && erased == []
      ensures nextCallbackId == old(nextCallbackId) && useCount == old(useCount)
      ensures n == |callbacks|
    {
      RemoveErased();
      n := |callbacks|;
    }
  }

  /** The range-for of EventImpl's operator(): visits the entries of the ordered map
      from the least id upwards and calls each with args. */
  method CallInOrder(live: map<int, Callback>, args: Args) returns (calls: seq<Invocation>)
    ensures calls == Invocations(live, args)
  {
    var remaining := live.Keys;
    ghost var visited: seq<int> := [];
    calls := [];
    while remaining != {}
      invariant remaining <= live.Keys
      invariant visited + SortedKeys(remaining) == SortedKeys(live.Keys)
      invariant forall i :: 0 <= i < |visited| ==> visited[i] in live
      invariant calls == CallsFor(visited, live, args)
      decreases |remaining|
    {
      LeastExists(remaining);
      var k :| IsLeast(k, remaining);
      VisitKeyStep(visited, remaining, k);
      VisitCallStep(visited, k, live, args);
      calls := calls + [Invocation(k, live[k], args)];
      visited := visited + [k];
      remaining := remaining - {k};
    }
    assert visited == SortedKeys(live.Keys);
  }

  /** One step of the traversal in EventImpl.Invoke: visiting the least remaining key
      keeps the visited keys followed by the rest equal to the whole traversal. */
  lemma VisitKeyStep(visited: seq<int>, remaining: set<int>, k: int)
    requires IsLeast(k, remaining)
    ensures visited + SortedKeys(remaining) == (visited + [k]) + SortedKeys(remaining - {k})
  {
    SortedKeysStep(remaining, k);
    var rest := SortedKeys(remaining - {k});
    assert visited + ([k] + rest) == (visited + [k]) + rest;
  }

  /** Visiting key k extends the calls made so far by that key's call. */
  lemma VisitCallStep(visited: seq<int>, k: int, live: map<int, Callback>, args: Args)
    requires k in live
    requires forall i :: 0 <= i < |visited| ==> visited[i] in live
    ensures forall i :: 0 <= i < |visited + [k]| ==> (visited + [k])[i] in live
    ensures CallsFor(visited + [k], live, args) == CallsFor(visited, live, args) + [Invocation(k, live[k], args)]
  {
    var longer := visited + [k];
    assert forall i :: 0 <= i < |longer| ==> longer[i] in live by {
      forall i | 0 <= i < |longer| ensures longer[i] in live {
        if i < |visited| {
          assert longer[i] == visited[i];
        }
      }
    }
    var lhs := CallsFor(longer, live, args);
    var rhs := CallsFor(visited, live, args) + [Invocation(k, live[k], args)];
    assert |lhs| == |rhs|;
    forall i | 0 <= i < |lhs| ensures lhs[i] == rhs[i] {
      if i < |visited| {
        assert longer[i] == visited[i];
      }
    }
  }

  /** A subscription handle: a weak reference to a registry and the entry's id, with
      id 0 meaning "no subscription". */
  class Listener {
    var event: EventImpl?
    var id: int

    constructor (event: EventImpl, id: int)
      ensures this.event == event && this.id == id
    {
      this.event := event;
      this.id := id;
    }

    /** Move construction: takes rhs's (reference, id) and leaves rhs empty. */
    constructor Move(rhs: Listener)
      modifies rhs
      ensures event == old(rhs.event) && id == old(rhs.id)
      ensures rhs.event == null && rhs.id == 0
    {
      event := rhs.event;
      id := rhs.id;
      new;
      rhs.id := 0;
      rhs.event := null;
    }

    /** Move assignment: first detaches the subscription held so far, then takes rhs's
        (reference, id) and leaves rhs empty. Assigning a listener to itself
        detaches it. */
    method MoveAssign(rhs: Listener)
      modifies this, rhs, event
      ensures rhs != this ==> event == old(rhs.event) && id == old(rhs.id)
      ensures rhs.event == null && rhs.id == 0
      ensures var e := old(event); e != null ==>
        e.callbacks == old(e.callbacks) && e.nextCallbackId == old(e.nextCallbackId) && e.useCount == old(e.useCount)
      ensures var e := old(event); e != null ==>
        e.erased == if old(id) != 0 && old(e.Alive()) then old(e.erased) + [old(id)] else old(e.erased)
    {
      Detach();
      id := rhs.id;
      event := rhs.event;
      rhs.id := 0;
      rhs.event := null;
    }

    /** Unsubscribes: nothing happens for an empty listener; otherwise the id is
        scheduled for removal if the registry still exists, and the listener becomes
        empty, so a second call has no effect. */
    method Detach()
      modifies this, event
      ensures id == 0
      ensures event == if old(id) == 0 then old(event) else null
      ensures var e := old(event); e != null ==>
        e.callbacks == old(e.callbacks) && e.nextCallbackId == old(e.nextCallbackId) && e.useCount == old(e.useCount)
      ensures var e := old(event); e != null ==>
        e.erased == if old(id) != 0 && old(e.Alive()) then old(e.erased) + [old(id)] else old(e.erased)
    {
      if id == 0 {
        return;
      }
      if event != null && event.Alive() {
        event.Remove(id);
      }
      event := null;
      id := 0;
    }

    /** The destructor: exactly a detach. */
    method Destroy()
      modifies this, event
      ensures id == 0
      ensures event == if old(id) == 0 then old(event) else null
      ensures var e := old(event); e != null ==>
        e.callbacks == old(e.callbacks) && e.nextCallbackId == old(e.nextCallbackId) && e.useCount == old(e.useCount)
      ensures var e := old(event); e != null ==>
        e.erased == if old(id) != 0 && old(e.Alive()) then old(e.erased) + [old(id)] else old(e.erased)
    {
      Detach();
    }
  }

  /** The public event handle: a shared reference to a registry, null once moved from. */
  class Event {
    var impl: EventImpl?

    ghost predicate Valid()
      reads this, impl
    {
      impl != null ==> impl.Valid()
    }

    /** A new event owns a fresh, empty registry. */
    constructor ()
      ensures Valid() && impl != null && fresh(impl)
      ensures impl.callbacks == map[] && impl.erased == [] && impl.nextCallbackId == 0 && impl.useCount == 1
    {
      impl := new EventImpl();
    }

    /** Copy construction: shares other's registry, which gains one owner. */
    constructor Copy(other: Event)
      requires other.Valid()
      modifies other.impl
      ensures Valid() && impl == other.impl
      ensures var r := other.impl; r != null ==>
        r.useCount == old(r.useCount) + 1 &&
        r.callbacks == old(r.callbacks) && r.erased == old(r.erased) && r.nextCallbackId == old(r.nextCallbackId)
    {
      impl := other.impl;
      new;
      if impl != null {
        impl.useCount := impl.useCount + 1;
      }
    }

    /** Move construction: takes other's registry and leaves other empty. */
    constructor Move(other: Event)
      requires other.Valid()
      modifies other
      ensures Valid() && impl == old(other.impl) && other.impl == null
    {
      impl := other.impl;
      new;
      other.impl := null;
    }

    /** Drops one owner of r; at zero owners the registry is destroyed. */
    static method Release(r: EventImpl?)
      modifies r
      ensures r != null ==>
        r.useCount == old(r.useCount) - 1 &&
        r.callbacks == old(r.callbacks) && r.erased == old(r.erased) && r.nextCallbackId == old(r.nextCallbackId)
    {
      if r != null {
        r.useCount := r.useCount - 1;
      }
    }

    /** Copy assignment: shares other's registry (one more owner) and then releases
        the registry held so far. */
    method CopyAssign(other: Event)
      requires Valid() && other.Valid()
      modifies this, impl, other.impl
      ensures Valid() && impl == old(other.impl) && other.impl == old(other.impl)
      ensures var a, b := old(impl), old(other.impl);
        a != null ==> a.useCount == old(a.useCount) + (if a == b then 0 else -1)
      ensures var a, b := old(impl), old(other.impl);
        b != null ==> b.useCount == old(b.useCount) + (if a == b then 0 else 1)
      ensures var rs := {old(impl), old(other.impl)}; forall r :: r in rs && r != null ==>
        r.callbacks == old(r.callbacks) && r.erased == old(r.erased) && r.nextCallbackId == old(r.nextCallbackId)
    {
      var shared := other.impl;
      if shared != null {
        shared.useCount := shared.useCount + 1;
      }
      var released := impl;
      impl := shared;
      Release(released);
    }

    /** Move assignment: takes other's registry, leaves other empty (unless it is this
        handle) and releases the registry held so far. */
    method MoveAssign(other: Event)
      requires Valid() && other.Valid()
      modifies this, other, impl
      ensures Valid() && impl == old(other.impl)
      ensures other != this ==> other.impl == null
      ensures var a := old(impl); a != null && other != this ==>
        a.useCount == old(a.useCount) - 1 &&
        a.callbacks == old(a.callbacks) && a.erased == old(a.erased) && a.nextCallbackId == old(a.nextCallbackId)
      ensures var a := old(impl); a != null && other == this ==> unchanged(a)
    {
      var taken := other.impl;
      other.impl := null;
      var released := impl;
      impl := taken;
      Release(released);
    }

    /** The destructor: releases the registry. */
    method Destroy()
      modifies this, impl
      ensures impl == null
      ensures var a := old(impl); a != null ==>
        a.useCount == old(a.useCount) - 1 &&
        a.callbacks == old(a.callbacks) && a.erased == old(a.erased) && a.nextCallbackId == old(a.nextCallbackId)
    {
      var released := impl;
      impl := null;
      Release(released);
    }

    /** Attaches f to the registry; an event without a registry returns no listener. */
    method Attach(f: Callback) returns (l: Listener?)
      requires Valid()
      modifies impl
      ensures Valid()
      ensures impl == null ==> l == null
      ensures impl != null ==>
        l != null && fresh(l) && l.event == impl &&
        l.id == old(impl.nextCallbackId) + 1 && l.id != 0 && l.id !in old(impl.callbacks) &&
        impl.nextCallbackId == l.id &&
        impl.callbacks == Purged(old(impl.callbacks), old(impl.erased))[l.id := f] &&
        impl.erased == [] && impl.useCount == old(impl.useCount)
    {
      if impl == null {
        return null;
      }
      l := impl.Attach(f);
    }

    /** Attaches the member function fn bound to instance, stored as one callable. */
    method AttachMember(fn: int, instance: int) returns (l: Listener?)
      requires Valid()
      modifies impl
      ensures Valid()
      ensures impl == null ==> l == null
      ensures impl != null ==>
        l != null && fresh(l) && l.event == impl &&
        l.id == old(impl.nextCallbackId) + 1 && l.id != 0 && l.id !in old(impl.callbacks) &&
        impl.nextCallbackId == l.id &&
        impl.callbacks == Purged(old(impl.callbacks), old(impl.erased))[l.id := Member(fn, instance)] &&
        impl.erased == [] && impl.useCount == old(impl.useCount)
    {
      if impl == null {
        return null;
      }
      l := impl.Attach(Member(fn, instance));
    }

    /** Triggers the event; an event without a registry calls nothing. */
    method Invoke(args: Args) returns (calls: seq<Invocation>)
      requires Valid()
      modifies impl
      ensures Valid()
      ensures impl == null ==> calls == []
      ensures impl != null ==>
        impl.callbacks == Purged(old(impl.callbacks), old(impl.erased)) && impl.erased == [] &&
        impl.nextCallbackId == old(impl.nextCallbackId) && impl.useCount == old(impl.useCount) &&
        calls == Invocations(impl.callbacks, args)
    {
      if impl == null {
        return [];
      }
      calls := impl.Invoke(args);
    }

    /** The number of live listeners; 0 for an event without a registry. */
    method GetListenersCount() returns (n: nat)
      requires Valid()
      modifies impl
      ensures Valid()
      ensures impl == null ==> n == 0
      ensures impl != null ==>
        impl.callbacks == Purged(old(impl.callbacks), old(impl.erased)) && impl.erased == [] &&
        impl.nextCallbackId == old(impl.nextCallbackId) && impl.useCount == old(impl.useCount) &&
        n == |impl.callbacks|
    {
      if impl == null {
        return 0;
      }
      n := impl.GetListenersCount();
    }
  }
}
