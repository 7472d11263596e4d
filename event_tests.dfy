/** The scenarios of tests/Event.cpp, replayed on the model. Each test's counter of
    lambda invocations is the number of recorded calls that went to the lambda.
    Event<>::ListenerPtr is a std::unique_ptr<Listener>: moving one moves the pointer
    (a `Listener?` variable here) and leaves the source null, and destroying a
    non-null one runs the listener's destructor (Destroy). */
module EventTests {
  import opened Callbacks
  import opened Events

  /** The counting lambda the tests attach. */
  const Lambda := Function(0)

  /** A second, distinct callable. */
  const OtherLambda := Function(1)

  /** Attach once, invoke once: the lambda ran once. */
  method InvokeOnce() returns (invocationCount: nat)
    ensures invocationCount == 1
  {
    var myEvent := new Event();
    invocationCount := 0;
    var myListener := myEvent.Attach(Lambda);
    var calls := myEvent.Invoke([]);
    OneEntryOneCall(1, Lambda, []);
    invocationCount := invocationCount + CallsTo(calls, Lambda);
  }

  /** Attach once, invoke n times: the lambda ran n times. */
  method InvokeRepeatedly(n: nat) returns (invocationCount: nat)
    ensures invocationCount == n
  {
    var myEvent := new Event();
    var r: EventImpl := myEvent.impl;
    invocationCount := 0;
    var myListener := myEvent.Attach(Lambda);
    OneEntryOneCall(1, Lambda, []);
    for i := 0 to n
      invariant myEvent.impl == r && myEvent.Valid()
      invariant r.callbacks == map[1 := Lambda] && r.erased == []
      invariant invocationCount == i
    {
      var calls := myEvent.Invoke([]);
      invocationCount := invocationCount + CallsTo(calls, Lambda);
    }
  }

  /** Moving the owning pointer of a listener keeps the subscription firing. */
  method MoveListener(n: nat) returns (invocationCount: nat)
    ensures invocationCount == n
  {
    var myEvent := new Event();
    var r: EventImpl := myEvent.impl;
    invocationCount := 0;
    var myListener := myEvent.Attach(Lambda);
    var anotherListener := myListener;
    myListener := null;
    OneEntryOneCall(1, Lambda, []);
    for i := 0 to n
      invariant myEvent.impl == r && myEvent.Valid()
      invariant r.callbacks == map[1 := Lambda] && r.erased == []
      invariant invocationCount == i
    {
      var calls := myEvent.Invoke([]);
      invocationCount := invocationCount + CallsTo(calls, Lambda);
    }
  }

  /** Moving the owning pointer out of an inner scope, whose end destroys the
      (now null) source pointer, keeps the subscription firing. */
  method MoveListenerAndDestroyPrevious(n: nat) returns (invocationCount: nat)
    ensures invocationCount == n
  {
    var myEvent := new Event();
    var r: EventImpl := myEvent.impl;
    invocationCount := 0;
    var anotherListener: Listener? := null;
    {
      var myListener := myEvent.Attach(Lambda);
      // move-assigning a unique_ptr first destroys what the target owned: nothing here
      anotherListener := myListener;
      myListener := null;
      // leaving the scope destroys myListener, which owns nothing any more
    }
    OneEntryOneCall(1, Lambda, []);
    for i := 0 to n
      invariant myEvent.impl == r && myEvent.Valid()
      invariant r.callbacks == map[1 := Lambda] && r.erased == []
      invariant invocationCount == i
    {
      var calls := myEvent.Invoke([]);
      invocationCount := invocationCount + CallsTo(calls, Lambda);
    }
  }

  /** Move-constructing a Listener object and destroying the moved-from one keeps the
      subscription firing; destroying the new one then unsubscribes. */
  method MoveListenerObject(n: nat) returns (invocationCount: nat, afterDestroy: nat)
    ensures invocationCount == n && afterDestroy == 0
  {
    var myEvent := new Event();
    var r: EventImpl := myEvent.impl;
    invocationCount := 0;
    var original := myEvent.Attach(Lambda);
    var moved := new Listener.Move(original);
    original.Destroy();
    OneEntryOneCall(1, Lambda, []);
    for i := 0 to n
      invariant myEvent.impl == r && myEvent.Valid()
      invariant r.callbacks == map[1 := Lambda] && r.erased == []
      invariant moved.event == r && moved.id == 1 && r.useCount == 1
      invariant invocationCount == i
    {
      var calls := myEvent.Invoke([]);
      invocationCount := invocationCount + CallsTo(calls, Lambda);
    }
    moved.Destroy();
    assert Purged(map[1 := Lambda], [1]) == map[];
    var calls := myEvent.Invoke([]);
    NoEntriesNoCalls([]);
    afterDestroy := CallsTo(calls, Lambda);
  }

  /** Move-assigning one listener into another detaches the target's own subscription
      and hands it the source's. */
  method MoveAssignListener() returns (firstCalls: nat, secondCalls: nat, count: nat)
    ensures firstCalls == 0 && secondCalls == 1 && count == 1
  {
    var myEvent := new Event();
    var r: EventImpl := myEvent.impl;
    var first := myEvent.Attach(Lambda);
    var second := myEvent.Attach(OtherLambda);
    assert r.callbacks == map[1 := Lambda][2 := OtherLambda];
    first.MoveAssign(second);
    assert r.erased == [1];
    second.Destroy();
    assert r.erased == [1] && r.callbacks == map[1 := Lambda][2 := OtherLambda];
    PurgeFirstOfTwo();
    var calls := myEvent.Invoke([]);
    assert r.callbacks == map[2 := OtherLambda] && r.erased == [];
    OneEntryOneCall(2, OtherLambda, []);
    firstCalls := CallsTo(calls, Lambda);
    secondCalls := CallsTo(calls, OtherLambda);
    count := myEvent.GetListenersCount();
    assert r.callbacks == map[2 := OtherLambda];
  }

  lemma PurgeFirstOfTwo()
    ensures Purged(map[1 := Lambda][2 := OtherLambda], [1]) == map[2 := OtherLambda]
  {
    var p := Purged(map[1 := Lambda][2 := OtherLambda], [1]);
    assert p.Keys == {2};
  }

  /** Detaching before any invocation: the lambda never runs. */
  method DetachListener(n: nat) returns (invocationCount: nat)
    ensures invocationCount == 0
  {
    var myEvent := new Event();
    var r: EventImpl := myEvent.impl;
    invocationCount := 0;
    var myListener := myEvent.Attach(Lambda);
    myListener.Detach();
    assert Purged(r.callbacks, r.erased) == map[];
    NoEntriesNoCalls([]);
    for i := 0 to n
      invariant myEvent.impl == r && myEvent.Valid()
      invariant Purged(r.callbacks, r.erased) == map[]
      invariant invocationCount == 0
    {
      var calls := myEvent.Invoke([]);
      invocationCount := invocationCount + CallsTo(calls, Lambda);
    }
  }

  /** A second detach has no effect: the id is scheduled for removal once. */
  method DetachTwice() returns (pending: seq<int>, listenerId: int)
    ensures pending == [1] && listenerId == 0
  {
    var myEvent := new Event();
    var r: EventImpl := myEvent.impl;
    var myListener := myEvent.Attach(Lambda);
    myListener.Detach();
    myListener.Detach();
    pending := r.erased;
    listenerId := myListener.id;
  }

  /** Moving an event: the moved-from one calls nothing, counts nothing and attaches
      nothing; the destination calls the lambda once and counts one listener. */
  method MoveEvent(n: nat) returns (invocationCount: nat, movedFromCount: nat, movedToCount: nat, attachedToMovedFrom: bool)
    ensures invocationCount == 1 && movedFromCount == 0 && movedToCount == 1 && !attachedToMovedFrom
  {
    var myEvent := new Event();
    var r: EventImpl := myEvent.impl;
    invocationCount := 0;
    var myListener := myEvent.Attach(Lambda);
    var anotherEvent := new Event.Move(myEvent);
    for i := 0 to n
      invariant myEvent.impl == null && anotherEvent.impl == r && anotherEvent.Valid()
      invariant r.callbacks == map[1 := Lambda] && r.erased == []
      invariant invocationCount == 0
    {
      var calls := myEvent.Invoke([]);
      invocationCount := invocationCount + CallsTo(calls, Lambda);
    }
    var calls := anotherEvent.Invoke([]);
    OneEntryOneCall(1, Lambda, []);
    invocationCount := invocationCount + CallsTo(calls, Lambda);
    movedFromCount := myEvent.GetListenersCount();
    movedToCount := anotherEvent.GetListenersCount();
    var none := myEvent.Attach(Lambda);
    attachedToMovedFrom := none != null;
  }

  /** A copied event shares the registry: n invocations of each copy run the lambda
      2n times. */
  method CopyEvent(n: nat) returns (invocationCount: nat)
    ensures invocationCount == 2 * n
  {
    var myEvent := new Event();
    var r: EventImpl := myEvent.impl;
    invocationCount := 0;
    var myListener := myEvent.Attach(Lambda);
    var eventCopy := new Event.Copy(myEvent);
    OneEntryOneCall(1, Lambda, []);
    for i := 0 to n
      invariant myEvent.impl == r && eventCopy.impl == r && myEvent.Valid()
      invariant r.callbacks == map[1 := Lambda] && r.erased == []
      invariant invocationCount == i
    {
      var calls := myEvent.Invoke([]);
      invocationCount := invocationCount + CallsTo(calls, Lambda);
    }
    for i := 0 to n
      invariant myEvent.impl == r && eventCopy.impl == r && eventCopy.Valid()
      invariant r.callbacks == map[1 := Lambda] && r.erased == []
      invariant invocationCount == n + i
    {
      var calls := eventCopy.Invoke([]);
      invocationCount := invocationCount + CallsTo(calls, Lambda);
    }
  }

  /** Move-assign an event into another, then destroy a listener attached to the
      source: the destination, which now holds that registry, has no listener left. */
  method MoveEventAndDetachListener() returns (count: nat)
    ensures count == 0
  {
    var myEvent := new Event();
    var anotherEvent := new Event();
    var r: EventImpl := myEvent.impl;
    {
      var myListener := myEvent.Attach(Lambda);
      anotherEvent.MoveAssign(myEvent);
      myListener.Destroy();
    }
    assert Purged(r.callbacks, r.erased) == map[];
    count := anotherEvent.GetListenersCount();
  }

  /** The listener returned by attach is discarded, so it is destroyed at once: after
      the next invocation no listener is left and the lambda never ran. */
  method AutomaticallyDetachedListener() returns (count: nat, invocationCount: nat)
    ensures count == 0 && invocationCount == 0
  {
    var myEvent := new Event();
    var r: EventImpl := myEvent.impl;
    var discarded := myEvent.Attach(Lambda);
    discarded.Destroy();
    assert Purged(r.callbacks, r.erased) == map[];
    var calls := myEvent.Invoke([]);
    NoEntriesNoCalls([]);
    invocationCount := CallsTo(calls, Lambda);
    count := myEvent.GetListenersCount();
  }

  /** A member function bound to an instance is one callable: it runs once and counts
      as one listener. */
  method InstanceMethodListener() returns (count: nat, invocationCount: nat)
    ensures count == 1 && invocationCount == 1
  {
    var myEvent := new Event();
    var bound := Member(0, 0);
    var listener := myEvent.AttachMember(0, 0);
    var calls := myEvent.Invoke([]);
    OneEntryOneCall(1, bound, []);
    invocationCount := CallsTo(calls, bound);
    count := myEvent.GetListenersCount();
  }

  /** A function object is one callable: it runs once and counts as one listener. */
  method FunctorListener() returns (count: nat, invocationCount: nat)
    ensures count == 1 && invocationCount == 1
  {
    var myEvent := new Event();
    var functor := Function(2);
    var listener := myEvent.Attach(functor);
    var calls := myEvent.Invoke([]);
    OneEntryOneCall(1, functor, []);
    invocationCount := CallsTo(calls, functor);
    count := myEvent.GetListenersCount();
  }

  /** Move-assigning a fresh event into one whose registry holds a listener destroys that
      registry: invoking the event then calls nothing, and destroying the stale listener
      afterwards schedules nothing on the destroyed registry. */
  method MoveIntoEventWithListeners() returns (invocationCount: nat, originalAlive: bool, removedFromOriginal: nat)
    ensures invocationCount == 0 && !originalAlive && removedFromOriginal == 0
  {
    var myEvent := new Event();
    var anotherEvent := new Event();
    var original: EventImpl := anotherEvent.impl;
    {
      var myListener := anotherEvent.Attach(Lambda);
      anotherEvent.MoveAssign(myEvent);
      var calls := anotherEvent.Invoke([]);
      NoEntriesNoCalls([]);
      invocationCount := CallsTo(calls, Lambda);
      myListener.Destroy();
    }
    originalAlive := original.Alive();
    removedFromOriginal := |original.erased|;
  }

  /** The entries after attaching Function(0), ..., Function(i - 1) to a fresh event:
      ids 1..i, the j-th holding the j-th callable. */
  ghost function Registered(i: nat): (m: map<int, Callback>)
    ensures forall k :: k in m <==> 1 <= k <= i
    ensures forall k :: k in m ==> m[k] == Function(k - 1)
    ensures |m| == i
  {
    if i == 0 then map[] else Registered(i - 1)[i := Function(i - 1)]
  }

  /** The ids 1..n in ascending order. */
  function UpTo(n: nat): (ids: seq<int>)
    ensures |ids| == n && forall j :: 0 <= j < n ==> ids[j] == j + 1
  {
    if n == 0 then [] else UpTo(n - 1) + [n]
  }

  lemma UpToEnumerates(n: nat)
    ensures StrictlyIncreasing(UpTo(n))
    ensures forall x :: x in UpTo(n) <==> x in Registered(n).Keys
  {
    var ids := UpTo(n);
    forall x | 1 <= x <= n ensures x in ids {
      assert ids[x - 1] == x;
    }
  }

  lemma CallsForRegistered(n: nat, args: Args)
    ensures forall i :: 0 <= i < n ==> UpTo(n)[i] in Registered(n)
    ensures |CallsFor(UpTo(n), Registered(n), args)| == n
    ensures forall j :: 0 <= j < n ==> CallsFor(UpTo(n), Registered(n), args)[j] == Invocation(j + 1, Function(j), args)
  {
    var m, ids := Registered(n), UpTo(n);
    assert forall i :: 0 <= i < n ==> ids[i] in m;
    var calls := CallsFor(ids, m, args);
    forall j | 0 <= j < n ensures calls[j] == Invocation(j + 1, Function(j), args) {
      assert ids[j] == j + 1;
    }
  }

  /** The traversal of those entries visits them in attachment order. */
  lemma RegisteredOrder(n: nat, args: Args)
    ensures |Invocations(Registered(n), args)| == n
    ensures forall j :: 0 <= j < n ==> Invocations(Registered(n), args)[j] == Invocation(j + 1, Function(j), args)
  {
    var m := Registered(n);
    UpToEnumerates(n);
    SortedKeysUnique(m.Keys, UpTo(n));
    CallsForRegistered(n, args);
    assert Invocations(m, args) == CallsFor(UpTo(n), m, args);
  }

  /** Attaching n callables to a fresh event: n listeners are counted, and one invocation
      calls each exactly once, in attachment order. */
  method AttachInOrder(n: nat) returns (count: nat, calls: seq<Invocation>)
    ensures count == n
    ensures |calls| == n && forall j :: 0 <= j < n ==> calls[j] == Invocation(j + 1, Function(j), [])
  {
    var myEvent := new Event();
    var r: EventImpl := myEvent.impl;
    var listeners: seq<Listener?> := [];
    for i := 0 to n
      invariant myEvent.impl == r && myEvent.Valid()
      invariant r.callbacks == Registered(i) && r.erased == [] && r.nextCallbackId == i
      invariant |listeners| == i
    {
      var l := myEvent.Attach(Function(i));
      listeners := listeners + [l];
    }
    count := myEvent.GetListenersCount();
    calls := myEvent.Invoke([]);
    RegisteredOrder(n, []);
  }
}
