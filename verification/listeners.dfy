/**
 * Pure functions over a listener collection: a sequence in registration
 * order that keeps duplicates, and the calls that dispatching an event to
 * it makes. Then the same over the map of all eight collections, where an
 * absent key is a collection never created.
 */
module Listeners {
  import opened Lifecycle

  /** The first position at which `x` occurs in `s`. */
  function IndexOf<T(==)>(s: seq<T>, x: T): (i: nat)
    requires x in s
    ensures i < |s| && s[i] == x && x !in s[..i]
  {
    if s[0] == x then 0 else 1 + IndexOf(s[1..], x)
  }

  /**
   * `LinkedList.remove(Object)`: delete one occurrence of `x` (the first,
   * see RemoveFirstAt), or leave the collection as it is when `x` is not in it.
   */
  function RemoveFirst<T(==)>(s: seq<T>, x: T): (r: seq<T>)
    ensures x !in s ==> r == s
    ensures x in s ==> |r| == |s| - 1 && multiset(r) == multiset(s) - multiset{x}
  {
    if s == [] then []
    else if s[0] == x then
      assert s == [x] + s[1..];
      s[1..]
    else
      assert s == [s[0]] + s[1..];
      [s[0]] + RemoveFirst(s[1..], x)
  }

  /** The occurrence removed is the earliest registered one; the rest keep their order. */
  lemma {:induction false} RemoveFirstAt<T>(s: seq<T>, x: T)
    requires x in s
    ensures RemoveFirst(s, x) == s[..IndexOf(s, x)] + s[IndexOf(s, x) + 1..]
  {
    if s[0] != x {
      RemoveFirstAt(s[1..], x);
      var i := IndexOf(s[1..], x);
      assert RemoveFirst(s, x) == [s[0]] + RemoveFirst(s[1..], x);
      CutAfterHead(s, i);
    }
  }

  /** Cutting position `i` out of the tail, then putting the head back, cuts position `i + 1` out of `s`. */
  lemma CutAfterHead<T>(s: seq<T>, i: nat)
    requires i + 1 < |s|
    ensures [s[0]] + (s[1..][..i] + s[1..][i + 1..]) == s[..i + 1] + s[i + 2..]
  {
    assert s[..i + 1] == [s[0]] + s[1..][..i];
    assert s[i + 2..] == s[1..][i + 1..];
  }

  /**
   * Unregistering a listener right after registering it gives back the old
   * collection when it held no copy yet; otherwise the OLDER copy goes and
   * the new one, at the end, stays. Either way the registrations are the
   * same as before.
   */
  lemma {:induction false} UnregisterAfterRegister<T>(s: seq<T>, x: T)
    ensures RemoveFirst(s + [x], x) == if x in s then RemoveFirst(s, x) + [x] else s
    ensures multiset(RemoveFirst(s + [x], x)) == multiset(s)
  {
    RegisterThenRemove(s, x);
    if x in s {
      assert multiset(RemoveFirst(s, x) + [x]) == multiset(RemoveFirst(s, x)) + multiset{x};
    }
  }

  /** The sequence half of UnregisterAfterRegister. */
  lemma {:induction false} RegisterThenRemove<T>(s: seq<T>, x: T)
    ensures RemoveFirst(s + [x], x) == if x in s then RemoveFirst(s, x) + [x] else s
  {
    if s == [] {
      assert RemoveFirst([x], x) == [];
    } else if s[0] != x {
      var t := s + [x];
      assert t[0] == s[0] && t[1..] == s[1..] + [x];
      RegisterThenRemove(s[1..], x);
      assert RemoveFirst(t, x) == [s[0]] + RemoveFirst(s[1..] + [x], x);
      if x in s[1..] {
        assert RemoveFirst(s, x) == [s[0]] + RemoveFirst(s[1..], x);
      } else {
        assert x !in s;
        assert s == [s[0]] + s[1..];
      }
    } else {
      assert (s + [x])[1..] == s[1..] + [x];
    }
  }

  /** The calls of one dispatch to the collection `ls`: one per entry, in registration order. */
  function Calls(kind: ListenerKind, ls: seq<ListenerId>, a: ActivityId, n: Notice): (r: seq<Call>)
    ensures |r| == |ls|
    ensures forall i :: 0 <= i < |ls| ==> r[i] == Call(kind, ls[i], a, n)
  {
    if ls == [] then [] else [Call(kind, ls[0], a, n)] + Calls(kind, ls[1..], a, n)
  }

  /** Dispatching to one more listener adds one call at the end. */
  lemma CallsSnoc(kind: ListenerKind, ls: seq<ListenerId>, i: nat, a: ActivityId, n: Notice)
    requires i < |ls|
    ensures Calls(kind, ls[..i + 1], a, n) == Calls(kind, ls[..i], a, n) + [Call(kind, ls[i], a, n)]
  {
    var lhs := Calls(kind, ls[..i + 1], a, n);
    var rhs := Calls(kind, ls[..i], a, n) + [Call(kind, ls[i], a, n)];
    assert |lhs| == |rhs|;
    forall j | 0 <= j < |lhs| ensures lhs[j] == rhs[j] {
      assert ls[..i + 1][j] == ls[j];
    }
  }

  /** How many of the calls in `trace` go to listener `l` of collection `kind`. */
  function CallsTo(trace: seq<Call>, kind: ListenerKind, l: ListenerId): nat
  {
    if trace == [] then 0
    else (if trace[0].kind == kind && trace[0].listener == l then 1 else 0) + CallsTo(trace[1..], kind, l)
  }

  /** Counting calls distributes over concatenated traces. */
  lemma {:induction false} CallsToAppend(t: seq<Call>, u: seq<Call>, kind: ListenerKind, l: ListenerId)
    ensures CallsTo(t + u, kind, l) == CallsTo(t, kind, l) + CallsTo(u, kind, l)
  {
    if t == [] {
      assert t + u == u;
    } else {
      assert (t + u)[1..] == t[1..] + u;
      CallsToAppend(t[1..], u, kind, l);
    }
  }

  /**
   * A listener is called once per registration: registered twice, it is
   * called twice; not registered (or unregistered), it is not called.
   */
  lemma {:induction false} CallsPerRegistration(kind: ListenerKind, ls: seq<ListenerId>, a: ActivityId, n: Notice, l: ListenerId)
    ensures CallsTo(Calls(kind, ls, a, n), kind, l) == multiset(ls)[l]
  {
    if ls != [] {
      var t := Calls(kind, ls, a, n);
      CallsPerRegistration(kind, ls[1..], a, n, l);
      assert ls == [ls[0]] + ls[1..];
      assert multiset(ls) == multiset{ls[0]} + multiset(ls[1..]);
      assert t == [Call(kind, ls[0], a, n)] + Calls(kind, ls[1..], a, n);
      assert t[1..] == Calls(kind, ls[1..], a, n);
      assert CallsTo(t, kind, l) == (if ls[0] == l then 1 else 0) + CallsTo(t[1..], kind, l);
    }
  }

  /** Calls made to one collection are never counted against another. */
  lemma {:induction false} NoCallsToOtherKind(kind: ListenerKind, other: ListenerKind, ls: seq<ListenerId>, a: ActivityId, n: Notice, l: ListenerId)
    requires other != kind
    ensures CallsTo(Calls(kind, ls, a, n), other, l) == 0
  {
    if ls != [] {
      NoCallsToOtherKind(kind, other, ls[1..], a, n, l);
      assert Calls(kind, ls, a, n)[1..] == Calls(kind, ls[1..], a, n);
    }
  }

  /**
   * A listener registered once and then unregistered (what the
   * auto-unregistering observer does on ON_DESTROY) receives no further
   * calls from that collection.
   */
  lemma SilentAfterUnregister(kind: ListenerKind, ls: seq<ListenerId>, a: ActivityId, n: Notice, l: ListenerId)
    requires multiset(ls)[l] == 1
    ensures CallsTo(Calls(kind, RemoveFirst(ls, l), a, n), kind, l) == 0
  {
    CallsPerRegistration(kind, RemoveFirst(ls, l), a, n, l);
  }

  // ---------------------------------------------------------------------
  // The eight collections together

  /** Collection `kind` of the listener map; an absent key (a collection never created) reads as empty. */
  function Collection(m: map<ListenerKind, seq<ListenerId>>, kind: ListenerKind): seq<ListenerId>
  {
    if kind in m then m[kind] else []
  }

  /**
   * The listener map after unregistering `l` from collection `kind`: one
   * occurrence goes from that collection, an absent collection stays
   * absent, and every other collection is untouched.
   */
  function Unregistered(m: map<ListenerKind, seq<ListenerId>>, kind: ListenerKind, l: ListenerId): (r: map<ListenerKind, seq<ListenerId>>)
    ensures kind in r <==> kind in m
    ensures Collection(r, kind) == RemoveFirst(Collection(m, kind), l)
    ensures forall k :: k != kind ==> Collection(r, k) == Collection(m, k)
  {
    if kind in m then m[kind := RemoveFirst(m[kind], l)] else m
  }

  /**
   * The calls one lifecycle event makes: the event's own collection with
   * its notice, then the lifecycle-changed collection with the event
   * constant. `kind` is the event's own collection, never the
   * lifecycle-changed one.
   */
  function EventCalls(m: map<ListenerKind, seq<ListenerId>>, kind: ListenerKind, a: ActivityId, n: Notice, event: LifecycleEvent): seq<Call>
    requires kind != OnLifecycleChanged
  {
    Calls(kind, Collection(m, kind), a, n) + Calls(OnLifecycleChanged, Collection(m, OnLifecycleChanged), a, Changed(event))
  }

  /**
   * An event reaches every registration of its own collection once (twice
   * for a listener registered twice), in registration order, then every
   * lifecycle-changed listener with the event constant, and no listener of
   * any other collection.
   */
  lemma EventReachesEachRegistration(m: map<ListenerKind, seq<ListenerId>>, kind: ListenerKind, a: ActivityId, n: Notice, event: LifecycleEvent, l: ListenerId)
    requires kind != OnLifecycleChanged
    ensures var t := EventCalls(m, kind, a, n, event);
      && |t| == |Collection(m, kind)| + |Collection(m, OnLifecycleChanged)|
      && CallsTo(t, kind, l) == multiset(Collection(m, kind))[l]
      && CallsTo(t, OnLifecycleChanged, l) == multiset(Collection(m, OnLifecycleChanged))[l]
      && (forall other :: other != kind && other != OnLifecycleChanged ==> CallsTo(t, other, l) == 0)
      && (forall i :: 0 <= i < |Collection(m, kind)| ==> t[i] == Call(kind, Collection(m, kind)[i], a, n))
      && (forall i :: |Collection(m, kind)| <= i < |t| ==> t[i].kind == OnLifecycleChanged && t[i].notice == Changed(event))
  {
    var specific := Calls(kind, Collection(m, kind), a, n);
    var changed := Calls(OnLifecycleChanged, Collection(m, OnLifecycleChanged), a, Changed(event));
    CallsToAppend(specific, changed, kind, l);
    CallsToAppend(specific, changed, OnLifecycleChanged, l);
    CallsPerRegistration(kind, Collection(m, kind), a, n, l);
    CallsPerRegistration(OnLifecycleChanged, Collection(m, OnLifecycleChanged), a, Changed(event), l);
    NoCallsToOtherKind(OnLifecycleChanged, kind, Collection(m, OnLifecycleChanged), a, Changed(event), l);
    NoCallsToOtherKind(kind, OnLifecycleChanged, Collection(m, kind), a, n, l);
    forall other | other != kind && other != OnLifecycleChanged
      ensures CallsTo(specific + changed, other, l) == 0
    {
      CallsToAppend(specific, changed, other, l);
      NoCallsToOtherKind(kind, other, Collection(m, kind), a, n, l);
      NoCallsToOtherKind(OnLifecycleChanged, other, Collection(m, OnLifecycleChanged), a, Changed(event), l);
    }
  }

  /**
   * A listener observed once in collection `watched` (any of the eight)
   * hears an event exactly when the event is its collection's own or any
   * event at all for a lifecycle-changed listener; once its owner is
   * destroyed and the observer has unregistered it, it hears no event, of
   * any kind, for any activity.
   */
  lemma SilentAfterOwnerDestroyed(m: map<ListenerKind, seq<ListenerId>>, watched: ListenerKind, l: ListenerId,
                                  kind: ListenerKind, a: ActivityId, n: Notice, event: LifecycleEvent)
    requires kind != OnLifecycleChanged
    requires multiset(Collection(m, watched))[l] == 1
    ensures CallsTo(EventCalls(m, kind, a, n, event), watched, l) == (if watched == kind || watched == OnLifecycleChanged then 1 else 0)
    ensures CallsTo(EventCalls(Unregistered(m, watched, l), kind, a, n, event), watched, l) == 0
  {
    EventReachesEachRegistration(m, kind, a, n, event, l);
    var r := Unregistered(m, watched, l);
    EventReachesEachRegistration(r, kind, a, n, event, l);
    assert l in Collection(m, watched);
    assert multiset(Collection(r, watched))[l] == 0;
  }
}
