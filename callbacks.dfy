/** The value-level meaning of an event's callback registry: the ordered map from
    subscription id to callable, the lazy purge of pending removals, and the calls
    that one invocation makes. The classes in module Events are proved against
    these functions. */
module Callbacks {

  /** A stored callable, kept opaque. A plain callable (a lambda or a functor) is
      known by a tag; a member function bound to an instance by both. */
  datatype Callback = Function(tag: int) | Member(fn: int, instance: int)

  /** The argument list passed to one invocation of the event. */
  type Args = seq<int>

  /** One call made by an invocation: the entry's id, its callable and the arguments. */
  datatype Invocation = Invocation(id: int, callback: Callback, args: Args)

  predicate StrictlyIncreasing(s: seq<int>) {
    forall i, j :: 0 <= i < j < |s| ==> s[i] < s[j]
  }

  predicate IsLeast(m: int, s: set<int>) {
    m in s && forall x :: x in s ==> m <= x
  }

  /** Every non-empty finite set of ids has a least element. */
  lemma {:induction false} LeastExists(s: set<int>)
    requires s != {}
    ensures exists m :: IsLeast(m, s)
    decreases |s|
  {
    var x := PickOne(s);
    if s == {x} {
      assert IsLeast(x, s);
    } else {
      LeastExists(s - {x});
      var m :| IsLeast(m, s - {x});
      var least := if x < m then x else m;
      forall y | y in s ensures least <= y {
        if y != x {
          assert y in s - {x};
        }
      }
      assert IsLeast(least, s);
    }
  }

  lemma PickOne(s: set<int>) returns (x: int)
    requires s != {}
    ensures x in s
  {
    assert (forall y :: y !in s) ==> s == {};
    x :| x in s;
  }

  ghost function Least(s: set<int>): (m: int)
    requires s != {}
    ensures IsLeast(m, s)
  {
    LeastExists(s);
    var m :| IsLeast(m, s);
    m
  }

  /** The keys of an ordered map in the order its traversal visits them. */
  ghost function SortedKeys(s: set<int>): (r: seq<int>)
    ensures StrictlyIncreasing(r)
    ensures forall x :: x in r <==> x in s
    ensures |r| == |s|
    decreases |s|
  {
    if s == {} then []
    else
      var m := Least(s);
      var rest := SortedKeys(s - {m});
      assert forall j :: 0 <= j < |rest| ==> m < rest[j] by {
        forall j | 0 <= j < |rest| ensures m < rest[j] {
          assert rest[j] in s - {m};
        }
      }
      [m] + rest
  }

  /** Peeling the least key off a set peels the first key off its traversal. */
  lemma SortedKeysStep(s: set<int>, k: int)
    requires IsLeast(k, s)
    ensures SortedKeys(s) == [k] + SortedKeys(s - {k})
  {
    assert Least(s) == k;
  }

  /** The head of a strictly increasing enumeration of a set is the set's least element. */
  lemma IncreasingHeadIsLeast(s: set<int>, r: seq<int>)
    requires r != [] && StrictlyIncreasing(r)
    requires forall x :: x in r <==> x in s
    ensures IsLeast(r[0], s)
  {
    forall x | x in s ensures r[0] <= x {
      var i :| 0 <= i < |r| && r[i] == x;
    }
  }

  /** Dropping the head of a strictly increasing enumeration of s enumerates s minus the head. */
  lemma IncreasingTail(s: set<int>, r: seq<int>)
    requires r != [] && StrictlyIncreasing(r)
    requires forall x :: x in r <==> x in s
    ensures StrictlyIncreasing(r[1..])
    ensures forall x :: x in r[1..] <==> x in s - {r[0]}
  {
    var tail := r[1..];
    forall x | x in tail ensures x in s - {r[0]} {
      var i :| 0 <= i < |tail| && tail[i] == x;
      assert r[i + 1] == x;
    }
    forall x | x in s - {r[0]} ensures x in tail {
      var i :| 0 <= i < |r| && r[i] == x;
      assert tail[i - 1] == x;
    }
  }

  /** The ascending traversal is the only strictly increasing enumeration of a set. */
  lemma {:induction false} SortedKeysUnique(s: set<int>, r: seq<int>)
    requires StrictlyIncreasing(r)
    requires forall x :: x in r <==> x in s
    ensures r == SortedKeys(s)
    decreases |r|
  {
    if r == [] {
      assert forall x :: x !in s;
      assert s == {};
    } else {
      IncreasingHeadIsLeast(s, r);
      IncreasingTail(s, r);
      SortedKeysUnique(s - {r[0]}, r[1..]);
      SortedKeysStep(s, r[0]);
      assert r == [r[0]] + r[1..];
    }
  }

  /** The calls made for the keys ks, in that order. */
  function CallsFor(ks: seq<int>, m: map<int, Callback>, args: Args): (r: seq<Invocation>)
    requires forall i :: 0 <= i < |ks| ==> ks[i] in m
    ensures |r| == |ks|
    ensures forall i :: 0 <= i < |ks| ==> r[i].id == ks[i] && r[i].callback == m[ks[i]] && r[i].args == args
  {
    seq(|ks|, i requires 0 <= i < |ks| => Invocation(ks[i], m[ks[i]], args))
  }

  /** What one invocation over the live entries m calls: every entry exactly once,
      with the given arguments, in ascending id order. */
  ghost function Invocations(m: map<int, Callback>, args: Args): (r: seq<Invocation>)
    ensures |r| == |m|
    ensures forall i :: 0 <= i < |r| ==> r[i].id in m && r[i].callback == m[r[i].id] && r[i].args == args
    ensures forall k :: k in m ==> exists i :: 0 <= i < |r| && r[i].id == k
    ensures forall i, j :: 0 <= i < j < |r| ==> r[i].id < r[j].id
  {
    var ks := SortedKeys(m.Keys);
    assert forall i :: 0 <= i < |ks| ==> ks[i] in m by {
      forall i | 0 <= i < |ks| ensures ks[i] in m {
        assert ks[i] in ks;
      }
    }
    var r := CallsFor(ks, m, args);
    forall k | k in m ensures exists i :: 0 <= i < |r| && r[i].id == k {
      var i :| 0 <= i < |ks| && ks[i] == k;
      assert r[i].id == k;
    }
    r
  }

  /** How many of the calls went to the callable f. */
  function CallsTo(calls: seq<Invocation>, f: Callback): nat {
    if calls == [] then 0
    else (if calls[0].callback == f then 1 else 0) + CallsTo(calls[1..], f)
  }

  /** The ids listed in s. */
  ghost function Elems(s: seq<int>): set<int> {
    set k | k in s
  }

  /** The entries of m, among the ids keys, that hold the callable f. */
  ghost function Holding(keys: set<int>, m: map<int, Callback>, f: Callback): set<int> {
    set k | k in keys && k in m && m[k] == f
  }

  /** Adding one new id to the ids considered adds one entry exactly when it holds f. */
  lemma HoldingAdd(keys: set<int>, x: int, m: map<int, Callback>, f: Callback)
    requires x !in keys && x in m
    ensures |Holding(keys + {x}, m, f)| == |Holding(keys, m, f)| + (if m[x] == f then 1 else 0)
  {
    if m[x] == f {
      assert Holding(keys + {x}, m, f) == Holding(keys, m, f) + {x};
    } else {
      assert Holding(keys + {x}, m, f) == Holding(keys, m, f);
    }
  }

  lemma {:induction false} CallsForCount(ks: seq<int>, m: map<int, Callback>, args: Args, f: Callback)
    requires forall i :: 0 <= i < |ks| ==> ks[i] in m
    requires forall i, j :: 0 <= i < j < |ks| ==> ks[i] != ks[j]
    ensures CallsTo(CallsFor(ks, m, args), f) == |Holding(Elems(ks), m, f)|
    decreases |ks|
  {
    if ks == [] {
      assert Holding(Elems(ks), m, f) == {};
    } else {
      var tail := ks[1..];
      var calls := CallsFor(ks, m, args);
      assert calls[1..] == CallsFor(tail, m, args);
      assert CallsTo(calls, f) == (if m[ks[0]] == f then 1 else 0) + CallsTo(calls[1..], f);
      CallsForCount(tail, m, args, f);
      assert ks[0] !in Elems(tail) by {
        forall i | 0 <= i < |tail| ensures tail[i] != ks[0] {
          assert tail[i] == ks[i + 1];
        }
      }
      assert Elems(ks) == Elems(tail) + {ks[0]} by {
        assert ks == [ks[0]] + tail;
      }
      HoldingAdd(Elems(tail), ks[0], m, f);
    }
  }

  /** Each live callable is called once per entry that holds it: an invocation with
      its callables counted one by one matches the registry's entries. */
  lemma EachEntryCalledOnce(m: map<int, Callback>, args: Args, f: Callback)
    ensures CallsTo(Invocations(m, args), f) == |Holding(m.Keys, m, f)|
  {
    var ks := SortedKeys(m.Keys);
    CallsForCount(ks, m, args, f);
    assert Elems(ks) == m.Keys;
  }

  /** The entries left after erasing each pending id in turn; an id that is not
      an entry is ignored, and every surviving entry keeps its callable. */
  function Purged(m: map<int, Callback>, pending: seq<int>): (r: map<int, Callback>)
    ensures forall k :: k in r <==> k in m && k !in pending
    ensures forall k :: k in r ==> r[k] == m[k]
    decreases |pending|
  {
    if pending == [] then m
    else
      var front := pending[..|pending| - 1];
      assert pending == front + [pending[|pending| - 1]];
      Purged(m, front) - {pending[|pending| - 1]}
  }

  /** Purging with the same pending ids a second time changes nothing. */
  lemma PurgeIdempotent(m: map<int, Callback>, pending: seq<int>)
    ensures Purged(Purged(m, pending), pending) == Purged(m, pending)
  {
  }

  /** Only which ids are pending matters, not their order or repetitions: a double
      removal of one id has the effect of a single one. */
  lemma PurgeIgnoresOrderAndRepeats(m: map<int, Callback>, p: seq<int>, q: seq<int>)
    requires forall k :: k in p <==> k in q
    ensures Purged(m, p) == Purged(m, q)
  {
    var a, b := Purged(m, p), Purged(m, q);
    assert forall k :: k in a <==> k in b;
    assert forall k :: k in a ==> a[k] == b[k];
  }

  /** The entries a purge removes are exactly those whose id is pending. */
  lemma PurgedCount(m: map<int, Callback>, pending: seq<int>)
    ensures |Purged(m, pending)| + |set k | k in m && k in pending| == |m|
  {
    var gone := set k | k in m && k in pending;
    assert m.Keys == Purged(m, pending).Keys + gone;
    assert Purged(m, pending).Keys * gone == {};
  }

  /** A registry with no live entry calls nothing. */
  lemma NoEntriesNoCalls(args: Args)
    ensures Invocations(map[], args) == []
  {
  }

  /** A registry with one live entry calls exactly that one. */
  lemma OneEntryOneCall(id: int, f: Callback, args: Args)
    ensures Invocations(map[id := f], args) == [Invocation(id, f, args)]
    ensures forall g :: CallsTo(Invocations(map[id := f], args), g) == if g == f then 1 else 0
  {
    var r := Invocations(map[id := f], args);
    assert r[0].id == id;
    assert r == [Invocation(id, f, args)];
    assert r[1..] == [];
  }
}
