/**
 * The group event bus (plugin/src/habit-event-bus.ts): listeners subscribe to a group name,
 * and an emit for a name calls every listener subscribed under the same normalised name.
 * Listeners are identified by ids; the listener table is a JavaScript `Map` of `Set`s, so it
 * is an `OMap` from group name to a duplicate-free sequence in insertion order.
 *
 * The operations are functions on a `Bus` value; the class `HabitEventBus` holds one in its
 * field `groupListeners` and its methods are proved to do what the functions say.
 */
module EventBus {
  import opened Wrappers
  import opened HabitText
  import opened OrderedMaps

  /** A listener, identified by an id. */
  type ListenerId = nat

  /** Normalised group name -> the listeners subscribed to it, in subscription order. */
  type Bus = OMap<string, seq<ListenerId>>

  /** `normalizeGroup`: trimmed and lowercased; absent, empty or blank is `null` (`None`). */
  function NormalizeGroup(group: Option<string>): (r: Option<string>)
    ensures r.None? <==> group.None? || Trim(group.value) == ""
    ensures r.Some? ==> r.value == Lower(Trim(group.value)) && r.value != ""
  {
    LowerEmptyIff(Trim(group.GetOr("")));
    if group.None? || group.value == "" then None
    else
      var trimmed := Lower(Trim(group.value));
      if trimmed == "" then None else Some(trimmed)
  }

  lemma LowerEmptyIff(s: string)
    ensures Lower(s) == "" <==> s == ""
  {
  }

  /** A normalised name normalises to itself. */
  lemma {:induction false} NormalizeGroupIdempotent(group: Option<string>)
    requires NormalizeGroup(group).Some?
    ensures NormalizeGroup(NormalizeGroup(group)) == NormalizeGroup(group)
  {
    var t := Trim(group.value);
    var n := Lower(t);
    assert !IsSpace(n[0]) && !IsSpace(n[|n| - 1]);
    TrimByIdentity(n, IsSpace);
    LowerIdempotent(t);
  }

  /** Every group is listened to by a duplicate-free, non-empty set of listeners. */
  predicate BusValid(b: Bus) {
    && b.Valid()
    && forall g :: g in b.entries ==> b.entries[g] != [] && Distinct(b.entries[g])
  }

  /** The disposer `onGroup` returns: a no-op, or the removal of one listener from one group. */
  datatype Disposer = NoOp | Unsubscribe(group: string, listener: ListenerId)

  /** The listeners under a normalised name, none for `None`. */
  function ListenersAt(b: Bus, normalized: Option<string>): seq<ListenerId> {
    if normalized.None? || normalized.value !in b.entries then [] else b.entries[normalized.value]
  }

  /** The listeners a name reaches: those under its normalised form, none for a blank name. */
  function ListenersOf(b: Bus, group: Option<string>): seq<ListenerId> {
    ListenersAt(b, NormalizeGroup(group))
  }

  /** The subscription under an already normalised name (`None` for a blank one). */
  function SubscribeAt(b: Bus, normalized: Option<string>, listener: ListenerId): (Bus, Disposer) {
    if normalized.None? then (b, NoOp)
    else
      var current := ListenersAt(b, normalized);
      var added := if listener in current then current else current + [listener];
      (b.Put(normalized.value, added), Unsubscribe(normalized.value, listener))
  }

  /**
   * `onGroup(group, listener)`: nothing for a blank name; otherwise the listener is added to
   * the set under the normalised name (creating it last if it is new), unless already there.
   */
  function Subscribe(b: Bus, group: string, listener: ListenerId): (Bus, Disposer) {
    SubscribeAt(b, NormalizeGroup(Some(group)), listener)
  }

  /**
   * Calling a disposer: the listener leaves its group's set, and the group goes when its
   * set is empty; nothing happens when the group is gone already.
   */
  function DisposeBus(b: Bus, d: Disposer): Bus {
    match d
    case NoOp => b
    case Unsubscribe(group, listener) =>
      if group !in b.entries then b
      else
        var rest := Without(b.entries[group], listener);
        if |rest| == 0 then b.Remove(group) else b.Put(group, rest)
  }

  lemma {:induction false} SubscribeAtValid(b: Bus, normalized: Option<string>, listener: ListenerId)
    requires BusValid(b)
    ensures BusValid(SubscribeAt(b, normalized, listener).0)
  {
    if normalized.Some? {
      var current := ListenersAt(b, normalized);
      if listener !in current {
        assert Distinct(current + [listener]) by {
          var s := current + [listener];
          forall i, j | 0 <= i < j < |s| ensures s[i] != s[j] {
            if j == |current| {
              assert s[i] == current[i];
            } else {
              assert s[i] == current[i] && s[j] == current[j];
            }
          }
        }
      }
    }
  }

  lemma {:induction false} SubscribeValid(b: Bus, group: string, listener: ListenerId)
    requires BusValid(b)
    ensures BusValid(Subscribe(b, group, listener).0)
  {
    SubscribeAtValid(b, NormalizeGroup(Some(group)), listener);
  }

  lemma {:induction false} DisposeValid(b: Bus, d: Disposer)
    requires BusValid(b)
    ensures BusValid(DisposeBus(b, d))
  {
  }

  /** Subscribing under a name reaches the listener there once, and no other name changes. */
  lemma {:induction false} SubscribeAtReaches(b: Bus, n: string, listener: ListenerId)
    requires BusValid(b)
    ensures listener in ListenersAt(SubscribeAt(b, Some(n), listener).0, Some(n))
    ensures multiset(ListenersAt(SubscribeAt(b, Some(n), listener).0, Some(n)))[listener] == 1
    ensures forall m :: m != n ==> ListenersAt(SubscribeAt(b, Some(n), listener).0, Some(m)) == ListenersAt(b, Some(m))
  {
    SubscribeAtValid(b, Some(n), listener);
    DistinctOnce(ListenersAt(SubscribeAt(b, Some(n), listener).0, Some(n)), listener);
  }

  /**
   * A subscription under a non-blank name reaches the listener by every name with the same
   * normalised form ("Focus" and "focus"), in one copy however often it subscribed, and
   * changes what no other name reaches.
   */
  lemma {:induction false} SubscribeReaches(b: Bus, group: string, other: Option<string>, listener: ListenerId)
    requires BusValid(b) && Trim(group) != ""
    requires NormalizeGroup(other) == NormalizeGroup(Some(group))
    ensures listener in ListenersOf(Subscribe(b, group, listener).0, other)
    ensures multiset(ListenersOf(Subscribe(b, group, listener).0, other))[listener] == 1
    ensures forall g :: NormalizeGroup(g) != NormalizeGroup(Some(group)) ==>
      ListenersOf(Subscribe(b, group, listener).0, g) == ListenersOf(b, g)
  {
    var n := NormalizeGroup(Some(group));
    SubscribeAtReaches(b, n.value, listener);
    forall g | NormalizeGroup(g) != n
      ensures ListenersOf(Subscribe(b, group, listener).0, g) == ListenersOf(b, g)
    {
      if NormalizeGroup(g).Some? {
        assert NormalizeGroup(g).value != n.value;
      }
    }
  }

  /** An element of a duplicate-free sequence occurs in it once. */
  lemma {:induction false} DistinctOnce(s: seq<ListenerId>, x: ListenerId)
    requires Distinct(s) && x in s
    ensures multiset(s)[x] == 1
    decreases |s|
  {
    assert s == [s[0]] + s[1..];
    TailDistinct(s);
    if s[0] == x {
      assert multiset(s[1..])[x] == 0;
    } else {
      DistinctOnce(s[1..], x);
    }
  }

  lemma {:induction false} SubscribeAtTwice(b: Bus, normalized: Option<string>, listener: ListenerId)
    ensures SubscribeAt(SubscribeAt(b, normalized, listener).0, normalized, listener) == SubscribeAt(b, normalized, listener)
  {
    if normalized.Some? {
      var n := normalized.value;
      var current := ListenersAt(b, normalized);
      var added := if listener in current then current else current + [listener];
      var once := b.Put(n, added);
      assert ListenersAt(once, normalized) == added;
      assert listener in added;
      assert once.Put(n, added) == once;
    }
  }

  /** Subscribing the same listener twice is subscribing it once. */
  lemma {:induction false} SubscribeTwice(b: Bus, group: string, listener: ListenerId)
    ensures Subscribe(Subscribe(b, group, listener).0, group, listener) == Subscribe(b, group, listener)
  {
    SubscribeAtTwice(b, NormalizeGroup(Some(group)), listener);
  }

  /** A name that normalises to nothing subscribes nothing and returns a no-op. */
  lemma {:induction false} SubscribeBlank(b: Bus, group: string, listener: ListenerId)
    requires Trim(group) == ""
    ensures Subscribe(b, group, listener) == (b, NoOp)
  {
  }

  /**
   * The disposer removes its own listener only: the group keeps its other listeners in order,
   * it is deleted once empty, and other groups are untouched.
   */
  lemma {:induction false} DisposeRemovesOwn(b: Bus, group: string, listener: ListenerId)
    requires BusValid(b)
    requires group in b.entries
    ensures group in DisposeBus(b, Unsubscribe(group, listener)).entries ==>
      listener !in DisposeBus(b, Unsubscribe(group, listener)).entries[group]
    ensures group in DisposeBus(b, Unsubscribe(group, listener)).entries <==> exists l :: l in b.entries[group] && l != listener
    ensures group in DisposeBus(b, Unsubscribe(group, listener)).entries ==>
      DisposeBus(b, Unsubscribe(group, listener)).entries[group] == Without(b.entries[group], listener)
    ensures forall g :: g != group ==>
      (g in DisposeBus(b, Unsubscribe(group, listener)).entries <==> g in b.entries)
      && (g in b.entries ==> DisposeBus(b, Unsubscribe(group, listener)).entries[g] == b.entries[g])
  {
    var rest := Without(b.entries[group], listener);
    if |rest| > 0 {
      assert rest[0] in rest;
    }
  }

  /** Calling a disposer twice is calling it once. */
  lemma {:induction false} DisposeTwice(b: Bus, d: Disposer)
    requires BusValid(b)
    ensures DisposeBus(DisposeBus(b, d), d) == DisposeBus(b, d)
  {
    if d.Unsubscribe? && d.group in b.entries {
      var rest := Without(b.entries[d.group], d.listener);
      if |rest| != 0 {
        assert Without(rest, d.listener) == rest;
        assert b.Put(d.group, rest).Put(d.group, rest) == b.Put(d.group, rest);
      }
    }
  }

  lemma {:induction false} SubscribeAtDispose(b: Bus, normalized: Option<string>, listener: ListenerId)
    requires BusValid(b)
    requires listener !in ListenersAt(b, normalized)
    ensures DisposeBus(SubscribeAt(b, normalized, listener).0, SubscribeAt(b, normalized, listener).1) == b
  {
    if normalized.Some? {
      var n := normalized.value;
      var sub := SubscribeAt(b, normalized, listener);
      assert sub.1 == Unsubscribe(n, listener);
      if n in b.entries {
        assert ListenersAt(b, normalized) == b.entries[n];
        assert sub.0 == b.Put(n, b.entries[n] + [listener]);
        DisposeAppended(b, n, listener);
      } else {
        assert ListenersAt(b, normalized) + [listener] == [listener];
        assert sub.0 == b.Put(n, [listener]);
        DisposeCreated(b, n, listener);
      }
    }
  }

  /** Removing a listener appended to an existing group gives the group back. */
  lemma {:induction false} DisposeAppended(b: Bus, n: string, listener: ListenerId)
    requires BusValid(b)
    requires n in b.entries && listener !in b.entries[n]
    ensures DisposeBus(b.Put(n, b.entries[n] + [listener]), Unsubscribe(n, listener)) == b
  {
    var current := b.entries[n];
    var put := b.Put(n, current + [listener]);
    WithoutSnoc(current, listener);
    assert put.entries[n] == current + [listener];
    assert DisposeBus(put, Unsubscribe(n, listener)) == put.Put(n, current);
    assert b.entries[n := current] == b.entries;
  }

  /** Removing the only listener of a group just created deletes the group again. */
  lemma {:induction false} DisposeCreated(b: Bus, n: string, listener: ListenerId)
    requires b.Valid()
    requires n !in b.entries
    ensures DisposeBus(b.Put(n, [listener]), Unsubscribe(n, listener)) == b
  {
    var put := b.Put(n, [listener]);
    assert put.keys == b.keys + [n];
    assert Without([listener], listener) == [];
    assert DisposeBus(put, Unsubscribe(n, listener)) == put.Remove(n);
    var r := put.Remove(n);
    WithoutSnoc(b.keys, n);
    assert r.keys == b.keys;
    assert r.entries == b.entries;
  }

  /** Subscribing a new listener and disposing it leaves the bus as it was. */
  lemma {:induction false} SubscribeDispose(b: Bus, group: string, listener: ListenerId)
    requires BusValid(b)
    requires listener !in ListenersOf(b, Some(group))
    ensures DisposeBus(Subscribe(b, group, listener).0, Subscribe(b, group, listener).1) == b
  {
    SubscribeAtDispose(b, NormalizeGroup(Some(group)), listener);
  }

  /** Deleting an element appended to a sequence without it gives the sequence back. */
  lemma {:induction false} WithoutSnoc<K(!new)>(s: seq<K>, x: K)
    requires x !in s
    ensures Without(s + [x], x) == s
    decreases |s|
  {
    if s == [] {
      assert Without([x][1..], x) == [];
    } else {
      assert (s + [x])[1..] == s[1..] + [x];
      WithoutSnoc(s[1..], x);
      assert s == [s[0]] + s[1..];
    }
  }

  /**
   * `emitGroup(group)`: the listeners under the normalised name, each called once in order.
   * `throwing` says which listeners throw when called; each such error is logged and the
   * loop goes on, so every listener is called and the throwing ones are those logged.
   */
  function Emit(b: Bus, group: Option<string>, throwing: set<ListenerId>): (seq<ListenerId>, seq<ListenerId>) {
    var called := ListenersOf(b, group);
    (called, Throwers(called, throwing))
  }

  /** The listeners of `called` that throw, in calling order. */
  function Throwers(called: seq<ListenerId>, throwing: set<ListenerId>): (r: seq<ListenerId>)
    ensures forall l :: l in r <==> l in called && l in throwing
    decreases |called|
  {
    if called == [] then []
    else
      var front := Throwers(called[..|called| - 1], throwing);
      assert called == called[..|called| - 1] + [called[|called| - 1]];
      if called[|called| - 1] in throwing then front + [called[|called| - 1]] else front
  }

  /**
   * An emit calls each listener of the group exactly once, whatever the listeners throw, and
   * calls nobody for a blank name or a name with no listeners.
   */
  lemma {:induction false} EmitCallsEachOnce(b: Bus, group: Option<string>, throwing: set<ListenerId>)
    requires BusValid(b)
    ensures Emit(b, group, throwing).0 == Emit(b, group, {}).0
    ensures Distinct(Emit(b, group, throwing).0)
    ensures NormalizeGroup(group).None? ==> Emit(b, group, throwing).0 == []
    ensures NormalizeGroup(group).Some? && NormalizeGroup(group).value !in b.entries ==> Emit(b, group, throwing).0 == []
    ensures forall l :: l in Emit(b, group, throwing).1 <==> l in Emit(b, group, throwing).0 && l in throwing
  {
  }

  /** After `clear()` no emit calls anybody. */
  lemma {:induction false} ClearSilences(group: Option<string>, throwing: set<ListenerId>)
    ensures Emit(Empty(), group, throwing).0 == []
  {
  }

  /** `HabitEventBus`: the listener table in its field `groupListeners`. */
  class HabitEventBus {
    var groupListeners: Bus

    ghost predicate Valid()
      reads this
    {
      BusValid(groupListeners)
    }

    constructor()
      ensures Valid() && groupListeners == Empty()
    {
      groupListeners := Empty();
    }

    /** `onGroup(group, listener)`; the returned closure is the `Disposer` value. */
    method OnGroup(group: string, listener: ListenerId) returns (dispose: Disposer)
      requires Valid()
      modifies this
      ensures Valid()
      ensures (groupListeners, dispose) == Subscribe(old(groupListeners), group, listener)
    {
      SubscribeValid(groupListeners, group, listener);
      var normalized := NormalizeGroup(Some(group));
      if normalized.None? {
        return NoOp;
      }
      var listeners: seq<ListenerId>;
      if normalized.value in groupListeners.entries {
        listeners := groupListeners.entries[normalized.value];
      } else {
        listeners := [];
      }
      if listener !in listeners {
        listeners := listeners + [listener];
      }
      groupListeners := groupListeners.Put(normalized.value, listeners);
      dispose := Unsubscribe(normalized.value, listener);
    }

    /** Calling the disposer `onGroup` returned. */
    method Dispose(d: Disposer)
      requires Valid()
      modifies this
      ensures Valid()
      ensures groupListeners == DisposeBus(old(groupListeners), d)
    {
      DisposeValid(groupListeners, d);
      if d.NoOp? {
        return;
      }
      if d.group !in groupListeners.entries {
        return;
      }
      var current := Without(groupListeners.entries[d.group], d.listener);
      if |current| == 0 {
        groupListeners := groupListeners.Remove(d.group);
      } else {
        groupListeners := groupListeners.Put(d.group, current);
      }
    }

    /**
     * `emitGroup(group)`: the listeners, copied first, are called in order; `throwing` says
     * which of them throw. Returns the calls made and the errors logged.
     */
    method EmitGroup(group: Option<string>, throwing: set<ListenerId>) returns (called: seq<ListenerId>, logged: seq<ListenerId>)
      requires Valid()
      ensures (called, logged) == Emit(groupListeners, group, throwing)
    {
      called, logged := [], [];
      var normalized := NormalizeGroup(group);
      if normalized.None? {
        return;
      }
      if normalized.value !in groupListeners.entries || |groupListeners.entries[normalized.value]| == 0 {
        return;
      }
      var listeners := groupListeners.entries[normalized.value];
      var i := 0;
      while i < |listeners|
        invariant 0 <= i <= |listeners|
        invariant called == listeners[..i]
        invariant logged == Throwers(listeners[..i], throwing)
      {
        assert listeners[..i + 1][..i] == listeners[..i];
        called := called + [listeners[i]];
        if listeners[i] in throwing {
          logged := logged + [listeners[i]];
        }
        i := i + 1;
      }
      assert listeners[..i] == listeners;
    }

    /** `clear()`. */
    method Clear()
      modifies this
      ensures Valid() && groupListeners == Empty()
    {
      groupListeners := Empty();
    }
  }
}
