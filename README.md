# Sable event primitive, modelled in Dafny

This project models the event/listener primitive of the Sable library
(`source/Event.h`) and the scenarios of its unit tests (`tests/Event.cpp`).

- **EventImpl** is the shared callback registry. It holds an ordered map from
  subscription id to callable (`callbacks`), a list of ids waiting to be erased
  (`erased`), and the last id handed out (`nextCallbackId`). Removal is lazy:
  `Remove` only appends to the list; `Attach`, `Invoke` and `GetListenersCount`
  first purge it (`RemoveErased`).
- **Listener** is the move-only subscription handle. It holds a weak reference
  to a registry and an id, where 0 means "no subscription". `Detach` is
  idempotent, and the destructor (`Destroy`) is a detach.
- **Event** is the public handle. It holds a shared reference to a registry,
  which is null once the event has been moved from. Every operation on a null
  registry does nothing.

Files:

- `callbacks.dfy` (module `Callbacks`) holds the value-level meaning of the
  registry. `SortedKeys` is the ascending traversal of a `std::map`, `Purged`
  is a purge, and `Invocations` lists the calls one invocation makes. The
  lemmas about them are here too.
- `events.dfy` (module `Events`) holds the three classes. Each method is proved
  against those functions.
- `event_tests.dfy` (module `EventTests`) replays the unit tests as verified
  scenario methods. Each method's postcondition is the test's expectations.

Modelling choices:

- A callable is an opaque `Callback` value. A lambda or functor is
  `Function(tag)`. A member function bound to an instance is
  `Member(fn, instance)`, stored as a single entry, just as the source wraps it
  in one lambda.
- The argument pack `Args...` is fixed to a list of integers.
- An invocation does not run code. It returns the sequence of calls it makes,
  as `Invocation(id, callable, args)` values. A test's `invocationCount` is the
  number of those calls that went to its lambda (`CallsTo`).
- The `std::shared_ptr` that owns a registry is modelled by the registry's
  `useCount`. Copying an `Event` adds one owner. Destroying or overwriting an
  `Event` removes one. A `std::weak_ptr` is a plain reference, and its `lock()`
  succeeds while `useCount > 0`. `EventImpl.Alive` is that test, used where `detach` locks the weak reference (source/Event.h:204). It is a helper of the ownership abstraction and carries no contract of its own.
- `Event<>::ListenerPtr` is a `std::unique_ptr<Listener>`, and the tests move
  that pointer, not the `Listener`. Moving the pointer is modelled as moving a
  `Listener?` variable. Destroying a non-null one is a call to
  `Listener.Destroy`.

## Model

| member | source | states |
|---|---|---|
| Callbacks.SortedKeys | source/Event.h:96-98 | The ordered map's traversal lists every id of the map exactly once (same elements, same size), strictly ascending |
| Callbacks.SortedKeysUnique | source/Event.h:122 | Any strictly increasing list of exactly a map's ids is that map's traversal, so the visiting order is fully determined by the ids |
| Callbacks.Invocations | source/Event.h:92-98 | An invocation over the live entries makes one call per entry, each with that entry's callable and the given arguments (unchanged for the modelled integer arguments, see "Left out"), in strictly ascending id order, and reaches every entry |
| Callbacks.EachEntryCalledOnce | source/Event.h:96-98 | The number of calls that reach a callable equals the number of live entries holding it |
| Callbacks.Purged | source/Event.h:114-120 | After a purge, an id is live exactly when it was live and is not pending; a pending id that is absent is ignored; survivors keep their callables |
| Callbacks.PurgeIdempotent | source/Event.h:114-120 | Purging a second time with the same pending ids changes nothing |
| Callbacks.PurgeIgnoresOrderAndRepeats | source/Event.h:101-120 | Only the set of pending ids matters, so removing one id twice has the same effect as removing it once |
| Callbacks.PurgedCount | source/Event.h:106-120 | The count after a purge plus the number of live ids that were pending is the count before |
| Events.EventImpl.constructor | source/Event.h:80-80 | A new registry has no entries, no pending ids, a counter at 0 and one owner |
| Events.EventImpl.RemoveErased | source/Event.h:114-120 | The loop leaves the entries equal to the old entries purged by the old pending list, and empties the list |
| Events.EventImpl.Attach | source/Event.h:82-90 | Purges, then adds exactly one entry holding f under id old counter + 1. That id is non-zero and was never live before. No other live entry changes. The returned listener is fresh and bound to (this registry, that id) |
| Events.CallInOrder | source/Event.h:96-98 | The range-for over the ordered map produces exactly the calls of Invocations: ascending ids, each entry once |
| Events.EventImpl.Invoke | source/Event.h:92-99 | Purges, then makes exactly the calls Invocations gives for the purged entries |
| Events.EventImpl.Remove | source/Event.h:101-104 | Appends id to the pending list and leaves the entries, the counter and the owners untouched |
| Events.EventImpl.GetListenersCount | source/Event.h:106-111 | Purges and returns the number of entries left |
| Events.Listener.constructor | source/Event.h:211-216 | A listener is bound to the given registry and id |
| Events.Listener.Move | source/Event.h:170-175 | The new listener takes the source's (reference, id); the source becomes (null, 0) |
| Events.Listener.MoveAssign | source/Event.h:177-189 | First detaches the listener's own subscription (one removal on its registry if that registry is alive). Then it takes the source's (reference, id), and the source becomes (null, 0) |
| Events.Listener.Detach | source/Event.h:197-209 | With id 0, nothing changes. Otherwise the id is appended to the registry's pending list exactly when the registry is alive, and the listener becomes (null, 0). The registry's entries, counter and owners never change |
| Events.Listener.Destroy | source/Event.h:191-195 | Has exactly the effect of Detach |
| Events.Event.constructor | source/Event.h:45-45 | A new event owns a fresh, empty registry with one owner |
| Events.Event.Copy | source/Event.h:45-45 | The copy shares the source's registry, which gains one owner and is otherwise unchanged |
| Events.Event.Move | source/Event.h:45-45 | The new event takes the source's registry; the source is left with none |
| Events.Event.CopyAssign | source/Event.h:45-45 | The target shares the source's registry. If the two registries differ, the new one gains an owner and the old one loses one |
| Events.Event.MoveAssign | source/Event.h:45-45 | The target takes the source's registry and the source is left with none. The registry held before loses one owner. Self-assignment changes nothing |
| Events.Event.Release | source/Event.h:45-45 | The owner drop inside the defaulted copy/move assignment and destructor of the `shared_ptr` member: the registry loses one owner and is otherwise unchanged; a null handle releases nothing |
| Events.Event.Destroy | source/Event.h:45-45 | The registry held loses one owner and the handle holds none |
| Events.Event.Attach | source/Event.h:127-135 | Without a registry, returns no listener. Otherwise acts as EventImpl.Attach |
| Events.Event.AttachMember | source/Event.h:137-148 | Like Attach, storing the bound member function as one callable |
| Events.Event.Invoke | source/Event.h:150-158 | Without a registry, calls nothing. Otherwise acts as EventImpl.Invoke |
| Events.Event.GetListenersCount | source/Event.h:160-168 | Without a registry, returns 0. Otherwise acts as EventImpl.GetListenersCount |
| EventTests.InvokeOnce | tests/Event.cpp:7-22 | With one attached lambda, one invocation runs it once |
| EventTests.InvokeRepeatedly | tests/Event.cpp:24-42 | With one attached lambda, n invocations run it n times, for every n |
| EventTests.MoveListener | tests/Event.cpp:44-64 | After the listener pointer is moved, n invocations still run the lambda n times |
| EventTests.MoveListenerAndDestroyPrevious | tests/Event.cpp:66-88 | After moving the listener pointer out of a scope that then ends, n invocations still run the lambda n times |
| EventTests.MoveListenerObject | source/Event.h:170-209 | A move-constructed listener keeps the subscription firing n times after the moved-from listener is destroyed. Destroying the new listener then unsubscribes |
| EventTests.MoveAssignListener | source/Event.h:177-189 | Move-assigning listener B into listener A unsubscribes A's old callable, which is not called. B's callable is called once and is the only listener left |
| EventTests.DetachListener | tests/Event.cpp:90-109 | After a detach before any invocation, n invocations never run the lambda |
| EventTests.DetachTwice | source/Event.h:197-209 | Detaching twice schedules the id for removal once and leaves the id at 0 |
| EventTests.MoveEvent | tests/Event.cpp:111-133 | After an event is moved from, the source calls nothing, counts 0 listeners and attaches no listener. The destination runs the lambda once and counts 1 |
| EventTests.CopyEvent | tests/Event.cpp:135-158 | Copies share the registry, so n invocations of each copy run the lambda 2n times |
| EventTests.MoveEventAndDetachListener | tests/Event.cpp:160-177 | Move-assign one event into another, then destroy a listener attached to the source. The destination then counts 0 listeners |
| EventTests.AutomaticallyDetachedListener | tests/Event.cpp:179-195 | A discarded listener unsubscribes at once: the lambda never runs and the count is 0 |
| EventTests.InstanceMethodListener | tests/Event.cpp:197-218 | A bound member function runs once and counts as one listener |
| EventTests.FunctorListener | tests/Event.cpp:220-247 | A function object runs once and counts as one listener |
| EventTests.MoveIntoEventWithListeners | tests/Event.cpp:268-289 | Move-assigning a fresh event destroys the old registry. The stale listener's lambda never runs, and destroying that listener removes nothing |
| EventTests.RegisteredOrder | source/Event.h:87-98 | For the entries left by n attaches to a fresh event, the traversal visits ids 1..n, in attachment order |
| EventTests.AttachInOrder | source/Event.h:82-111 | After n attaches to a fresh event, the count is n, and one invocation calls the i-th attached callable exactly once, under id i + 1, in attachment order |

## Left out

- Template and `std::function` machinery: type erasure, perfect forwarding of `Args...` and `std::invoke` (source/Event.h:77, 145-147). Callables are opaque tags and the arguments are a fixed list of integers.
- Re-entrant use from inside a callback. Invocation is modelled as non-reentrant, and it is a snapshot of the purged map. In the C++ code, an `attach` made from a callback purges the map in the middle of the range-for, which the code does not guard against. An entry emplaced during the loop has a larger id, so `std::map` may visit it in the same invocation rather than waiting for the next one. The model covers neither behaviour, since the code promises nothing here.
- Exact `std::shared_ptr`/`std::weak_ptr` mechanics: `enable_shared_from_this`, atomic reference counting and deallocation. A registry that loses its last owner is marked as no longer alive (`useCount` reaches 0) instead of being freed.
- Events.EventImpl.Attach: does not model the 32-bit `int` counter. After 2^31 - 1 attaches the C++ increment overflows, which is undefined behaviour. The model's counter is unbounded.
- Events.Event.MoveAssign: the model does not prove that `useCount` equals the number of `Event` handles holding a registry. That is a global fact about all handles and cannot be stated on one object. The scenarios track the counts exactly instead.
- The cross-object invariant "a listener's non-zero id is live or pending in its still-alive registry" is only exhibited by the scenarios. No general lemma states it.
- Destructors that run at the end of a test after its last expectation are not replayed. Those that an expectation depends on, in `MoveEventAndDetachListener`, `AutomaticallyDetachedListener` and `MoveIntoEventWithListeners`, are replayed.
- Callbacks.Invocations: states that every call gets `args` unchanged, which holds only for argument types whose move is a copy, such as the modelled integer list. The source re-forwards its by-value arguments on every turn of the loop (source/Event.h:97), so with a movable type such as `std::string` the first callback receives the value and later callbacks receive a moved-from one. The model does not capture this.
- The gtest harness and the `Parameters` test (tests/Event.cpp:249-266). That test attaches a single callback with an `int` and a `std::string` argument, so the moved-from effect above does not arise. For integer arguments, `Invocations` states what it checks: the callback receives the arguments given.
