/**
 * The activity monitor: three newest-first sequences of weak activity
 * handles (created, started, resumed), eight lazily created listener
 * collections, the lifecycle callbacks that update the sequences and
 * dispatch to the listeners, and the register / unregister / observe
 * operations on the collections.
 *
 * Listener callbacks are opaque user code; every dispatch returns the
 * calls it makes as a trace of `Call` records. Which handles are stale is
 * given by an explicit set `alive` of the referents still reachable.
 */
module ActivityMonitor {
  import opened Wrappers
  import opened Lifecycle
  import opened Handles
  import opened Listeners

  class Monitor {
    // The three *ActivityReverseList fields: index 0 is the newest entry.
    var createdHandles: seq<ActivityId>
    var startedHandles: seq<ActivityId>
    var resumedHandles: seq<ActivityId>
    // The listener collections; an absent key is a collection never created (null).
    var listeners: map<ListenerKind, seq<ListenerId>>

    constructor ()
      ensures createdHandles == [] && startedHandles == [] && resumedHandles == []
      ensures listeners == map[]
    {
      createdHandles, startedHandles, resumedHandles := [], [], [];
      listeners := map[];
    }

    /** The stored handle sequence for state `k`, stale handles included. */
    function Stored(k: StateKind): seq<ActivityId>
      reads this
    {
      match k
      case CreatedState => createdHandles
      case StartedState => startedHandles
      case ResumedState => resumedHandles
    }

    /** The collection `kind`, an absent one read as empty. */
    function ListenersOf(kind: ListenerKind): seq<ListenerId>
      reads this
    {
      Collection(listeners, kind)
    }

    /**
     * Each sequence holds an activity at most once. The monitor does not
     * enforce this; it holds as long as the host never reports the same
     * activity entering a state it is already in.
     */
    ghost predicate WellFormed()
      reads this
    {
      forall k :: Distinct(Stored(k))
    }

    // -------------------------------------------------------------------
    // Queries

    /** get*ActivityCount: the number of stored handles, stale ones included. */
    function Count(k: StateKind): (n: nat)
      reads this
      ensures n == |Stored(k)|
      ensures n == 0 <==> Stored(k) == []
    {
      |Stored(k)|
    }

    /** isRunningForeground: some activity has been started and not yet stopped. */
    function IsRunningForeground(): (b: bool)
      reads this
      ensures b <==> startedHandles != []
    {
      Count(StartedState) > 0
    }

    /** The count can exceed the number of live activities: it includes stale handles. */
    lemma CountIncludesStale(k: StateKind, alive: set<ActivityId>)
      ensures |OldestFirstLive(Stored(k), alive)| <= Count(k)
      ensures |OldestFirstLive(Stored(k), alive)| == Count(k) <==> forall x :: x in Stored(k) ==> x in alive
    {
      OldestFirstLiveProperties(Stored(k), alive);
      LiveOnlyKeepsAll(Stored(k), alive);
    }

    /**
     * get*ActivityList: walk the stored sequence, collect the live
     * referents, then reverse them, so the earliest entry comes first.
     */
    method GetActivityList(k: StateKind, alive: set<ActivityId>) returns (list: seq<ActivityId>)
      ensures list == OldestFirstLive(Stored(k), alive)
    {
      var s := Stored(k);
      if s == [] {
        return [];
      }
      var live: seq<ActivityId> := [];
      var i := 0;
      while i < |s|
        invariant 0 <= i <= |s|
        invariant live == LiveOnly(s[..i], alive)
      {
        LiveOnlyStep(s, i, alive);
        if s[i] in alive {
          live := live + [s[i]];
        }
        i := i + 1;
      }
      assert s[..i] == s;
      list := Reverse(live);
    }

    /**
     * getLast*Activity: the referent of the newest handle (index 0); absent
     * when the sequence is empty or that handle is stale. When present it
     * is the final element of the getter's list.
     */
    function LastActivity(k: StateKind, alive: set<ActivityId>): (r: Option<ActivityId>)
      reads this
      ensures r.None? <==> Stored(k) == [] || Stored(k)[0] !in alive
      ensures r.Some? ==> r.value == Stored(k)[0]
      ensures r.Some? ==> var l := OldestFirstLive(Stored(k), alive); l != [] && l[|l| - 1] == r.value
    {
      EndsAgreeWithList(Stored(k), alive);
      NewestEnd(Stored(k), alive)
    }

    /**
     * getFirst*Activity: the referent of the oldest handle (last index);
     * absent when the sequence is empty or that handle is stale. When
     * present it is the first element of the getter's list.
     */
    function FirstActivity(k: StateKind, alive: set<ActivityId>): (r: Option<ActivityId>)
      reads this
      ensures r.None? <==> Stored(k) == [] || Stored(k)[|Stored(k)| - 1] !in alive
      ensures r.Some? ==> r.value == Stored(k)[|Stored(k)| - 1]
      ensures r.Some? ==> var l := OldestFirstLive(Stored(k), alive); l != [] && l[0] == r.value
    {
      EndsAgreeWithList(Stored(k), alive);
      OldestEnd(Stored(k), alive)
    }

    // -------------------------------------------------------------------
    // Listener collections

    /** register*Listener: append at the end, creating the collection if absent; duplicates stay. */
    method Register(kind: ListenerKind, l: ListenerId)
      modifies this
      ensures listeners == old(listeners)[kind := old(ListenersOf(kind)) + [l]]
      ensures forall k :: Stored(k) == old(Stored(k))
    {
      if kind in listeners {
        listeners := listeners[kind := listeners[kind] + [l]];
      } else {
        assert [] + [l] == [l];
        listeners := listeners[kind := [l]];
      }
    }

    /** unregister*Listener: remove one equal occurrence; nothing happens to an absent collection. */
    method Unregister(kind: ListenerKind, l: ListenerId)
      modifies this
      ensures kind in old(listeners) ==> listeners == old(listeners)[kind := RemoveFirst(old(listeners)[kind], l)]
      ensures kind !in old(listeners) ==> listeners == old(listeners)
      ensures l !in old(ListenersOf(kind)) ==> listeners == old(listeners)
      ensures listeners == Unregistered(old(listeners), kind, l)
      ensures forall k :: Stored(k) == old(Stored(k))
    {
      if kind in listeners {
        assert l !in listeners[kind] ==> listeners[kind := listeners[kind]] == listeners;
        listeners := listeners[kind := RemoveFirst(listeners[kind], l)];
      }
    }

    /**
     * observe*: throw for an owner that is already destroyed; otherwise
     * register the listener (and attach the auto-unregistering observer
     * to the owner, which `OnOwnerStateChanged` models).
     */
    method Observe(kind: ListenerKind, owner: OwnerState, l: ListenerId) returns (outcome: Outcome<ObserveError>)
      modifies this
      ensures owner == OwnerDestroyed ==> outcome == Fail(IllegalState) && listeners == old(listeners)
      ensures owner != OwnerDestroyed ==> outcome == Pass && listeners == old(listeners)[kind := old(ListenersOf(kind)) + [l]]
      ensures forall k :: Stored(k) == old(Stored(k))
    {
      if owner == OwnerDestroyed {
        return Fail(IllegalState);
      }
      Register(kind, l);
      outcome := Pass;
    }

    /**
     * The auto-unregistering observer: on ON_DESTROY of its owner it
     * unregisters its listener and detaches itself; every other event is
     * ignored. `detached` says whether it removed itself from the owner.
     */
    method OnOwnerStateChanged(kind: ListenerKind, l: ListenerId, event: OwnerEvent) returns (detached: bool)
      modifies this
      ensures detached <==> event == OnDestroy
      ensures event == OnDestroy && kind in old(listeners) ==> listeners == old(listeners)[kind := RemoveFirst(old(listeners)[kind], l)]
      ensures event != OnDestroy || kind !in old(listeners) ==> listeners == old(listeners)
      ensures event == OnDestroy ==> listeners == Unregistered(old(listeners), kind, l)
      ensures forall k :: Stored(k) == old(Stored(k))
    {
      detached := false;
      if event == OnDestroy {
        Unregister(kind, l);
        detached := true;
      }
    }

    // -------------------------------------------------------------------
    // Dispatch

    /**
     * Visit the event-specific collection in registration order, then the
     * lifecycle-changed collection with the event constant; an absent or
     * empty collection makes no call.
     */
    method Dispatch(kind: ListenerKind, a: ActivityId, n: Notice, event: LifecycleEvent) returns (trace: seq<Call>)
      requires kind != OnLifecycleChanged
      ensures trace == EventCalls(listeners, kind, a, n, event)
    {
      var specific: seq<Call> := [];
      if kind in listeners && listeners[kind] != [] {
        specific := Notify(kind, listeners[kind], a, n);
      }
      assert specific == Calls(kind, ListenersOf(kind), a, n);
      var changed: seq<Call> := [];
      if OnLifecycleChanged in listeners && listeners[OnLifecycleChanged] != [] {
        changed := Notify(OnLifecycleChanged, listeners[OnLifecycleChanged], a, Changed(event));
      }
      assert changed == Calls(OnLifecycleChanged, ListenersOf(OnLifecycleChanged), a, Changed(event));
      trace := specific + changed;
    }

    // -------------------------------------------------------------------
    // Lifecycle callbacks

    /** Replace the stored sequence of one state, nothing else. */
    method SetStored(k: StateKind, s: seq<ActivityId>)
      modifies this
      ensures Stored(k) == s
      ensures forall j :: j != k ==> Stored(j) == old(Stored(j))
      ensures listeners == old(listeners)
    {
      match k
      case CreatedState => createdHandles := s;
      case StartedState => startedHandles := s;
      case ResumedState => resumedHandles := s;
    }

    /**
     * onActivityCreated / onActivityStarted / onActivityResumed: prepend a
     * handle for `a` (without looking for an existing one), then tell the
     * state's listeners whether this is the first entry (new count 1).
     */
    method OnActivityEntered(k: StateKind, a: ActivityId) returns (trace: seq<Call>)
      modifies this
      ensures Stored(k) == [a] + old(Stored(k))
      ensures forall j :: j != k ==> Stored(j) == old(Stored(j))
      ensures listeners == old(listeners)
      ensures Count(k) == old(Count(k)) + 1
      ensures trace == EventCalls(listeners, EntryListeners(k), a, Flag(Count(k) == 1), EntryEvent(k))
      ensures Count(k) == 1 <==> old(Stored(k)) == []
      ensures k == StartedState ==> IsRunningForeground()
      ensures old(WellFormed()) && a !in old(Stored(k)) ==> WellFormed()
    {
      SetStored(k, [a] + Stored(k));
      var count := |Stored(k)|;
      trace := Dispatch(EntryListeners(k), a, Flag(count == 1), EntryEvent(k));
      if old(WellFormed()) && a !in old(Stored(k)) {
        PrependDistinct(old(Stored(k)), a);
      }
    }

    /**
     * The iterator sweep of one state's sequence: every handle that is
     * stale or refers to `a` is removed, the others stay in order.
     */
    method SweepStored(k: StateKind, a: ActivityId, alive: set<ActivityId>)
      modifies this
      ensures Stored(k) == Sweep(old(Stored(k)), alive, a)
      ensures forall j :: j != k ==> Stored(j) == old(Stored(j))
      ensures listeners == old(listeners)
    {
      var s := Stored(k);
      var kept: seq<ActivityId> := [];
      var i := 0;
      while i < |s|
        invariant 0 <= i <= |s|
        invariant kept == Sweep(s[..i], alive, a)
        invariant unchanged(this)
      {
        SweepStep(s, i, alive, a);
        if !(s[i] !in alive || s[i] == a) {
          kept := kept + [s[i]];
        }
        i := i + 1;
      }
      assert s[..i] == s;
      SetStored(k, kept);
    }

    /**
     * onActivityPaused / onActivityStopped / onActivityDestroyed: sweep the
     * state's sequence, removing every handle that is stale or refers to
     * `a`, then tell the exit listeners whether none is left (count <= 0).
     */
    method OnActivityExited(k: StateKind, a: ActivityId, alive: set<ActivityId>) returns (trace: seq<Call>)
      modifies this
      ensures Stored(k) == Sweep(old(Stored(k)), alive, a)
      ensures forall j :: j != k ==> Stored(j) == old(Stored(j))
      ensures listeners == old(listeners)
      ensures a !in Stored(k) && forall x :: x in Stored(k) ==> x in alive
      ensures IsSubsequence(Stored(k), old(Stored(k)))
      ensures Count(k) <= old(Count(k))
      ensures trace == EventCalls(listeners, ExitListeners(k), a, Flag(Count(k) <= 0), ExitEvent(k))
      ensures Count(k) <= 0 <==> forall x :: x in old(Stored(k)) ==> x !in alive || x == a
      ensures old(WellFormed()) ==> WellFormed()
    {
      SweepProperties(Stored(k), alive, a);
      SweepStored(k, a, alive);
      var count := |Stored(k)|;
      trace := Dispatch(ExitListeners(k), a, Flag(count <= 0), ExitEvent(k));
      if old(WellFormed()) {
        forall j ensures Distinct(Stored(j)) {
          if j != k {
            assert Stored(j) == old(Stored(j));
          }
        }
      }
    }

    /** onActivitySaveInstanceState: no sequence changes; dispatch only. */
    method OnActivitySaveInstanceState(a: ActivityId) returns (trace: seq<Call>)
      ensures trace == EventCalls(listeners, OnSaveInstanceState, a, SavedState, SaveInstanceState)
    {
      trace := Dispatch(OnSaveInstanceState, a, SavedState, SaveInstanceState);
    }

    /**
     * The host calling one of the registered lifecycle callbacks: the
     * sequence change and the calls are those of the callback named.
     */
    method Deliver(cb: HostCallback) returns (trace: seq<Call>)
      modifies this
      ensures listeners == old(listeners)
      ensures cb.Entered? ==> Stored(cb.state) == [cb.activity] + old(Stored(cb.state))
      ensures cb.Exited? ==> Stored(cb.state) == Sweep(old(Stored(cb.state)), cb.alive, cb.activity)
      ensures cb.InstanceStateSaved? ==> forall k :: Stored(k) == old(Stored(k))
      ensures !cb.InstanceStateSaved? ==> forall j :: j != cb.state ==> Stored(j) == old(Stored(j))
      ensures cb.Entered? ==>
        trace == EventCalls(listeners, EntryListeners(cb.state), cb.activity, Flag(Count(cb.state) == 1), EntryEvent(cb.state))
      ensures cb.Exited? ==>
        trace == EventCalls(listeners, ExitListeners(cb.state), cb.activity, Flag(Count(cb.state) <= 0), ExitEvent(cb.state))
      ensures cb.InstanceStateSaved? ==>
        trace == EventCalls(listeners, OnSaveInstanceState, cb.activity, SavedState, SaveInstanceState)
    {
      match cb
      case Entered(k, a) => trace := OnActivityEntered(k, a);
      case Exited(k, a, alive) => trace := OnActivityExited(k, a, alive);
      case InstanceStateSaved(a) => trace := OnActivitySaveInstanceState(a);
    }

    /**
     * The auto-unregistering observer end to end, for any of the eight
     * collections: a listener observed once whose owner then reaches
     * ON_DESTROY receives no call from whatever callback the host makes
     * next.
     */
    method DestroyOwnerThenDeliver(watched: ListenerKind, l: ListenerId, cb: HostCallback) returns (trace: seq<Call>)
      requires multiset(ListenersOf(watched))[l] == 1
      modifies this
      ensures listeners == Unregistered(old(listeners), watched, l)
      ensures cb.Entered? ==> Stored(cb.state) == [cb.activity] + old(Stored(cb.state))
      ensures cb.Exited? ==> Stored(cb.state) == Sweep(old(Stored(cb.state)), cb.alive, cb.activity)
      ensures cb.InstanceStateSaved? ==> forall k :: Stored(k) == old(Stored(k))
      ensures !cb.InstanceStateSaved? ==> forall j :: j != cb.state ==> Stored(j) == old(Stored(j))
      ensures CallsTo(trace, watched, l) == 0
    {
      var detached := OnOwnerStateChanged(watched, l, OnDestroy);
      trace := Deliver(cb);
      match cb
      case Entered(k, a) =>
        SilentAfterOwnerDestroyed(old(listeners), watched, l, EntryListeners(k), a, Flag(Count(k) == 1), EntryEvent(k));
      case Exited(k, a, _) =>
        SilentAfterOwnerDestroyed(old(listeners), watched, l, ExitListeners(k), a, Flag(Count(k) <= 0), ExitEvent(k));
      case InstanceStateSaved(a) =>
        SilentAfterOwnerDestroyed(old(listeners), watched, l, OnSaveInstanceState, a, SavedState, SaveInstanceState);
    }
  }

  /** Call every listener of one collection, in registration order. */
  method Notify(kind: ListenerKind, ls: seq<ListenerId>, a: ActivityId, n: Notice) returns (calls: seq<Call>)
    ensures calls == Calls(kind, ls, a, n)
  {
    calls := [];
    for i := 0 to |ls|
      invariant calls == Calls(kind, ls[..i], a, n)
    {
      CallsSnoc(kind, ls, i, a, n);
      calls := calls + [Call(kind, ls[i], a, n)];
    }
    assert ls[..|ls|] == ls;
  }

  /**
   * Two activities are created and destroyed in turn, with one
   * created-listener and one destroyed-listener registered: the flags,
   * the getter's order and the ends come out as the callbacks promise.
   */
  method CreateTwoDestroyBoth()
  {
    var m := new Monitor();
    m.Register(OnCreated, 7);
    assert [] + [7] == [7];
    assert m.listeners == map[OnCreated := [7]];
    m.Register(OnDestroyed, 8);
    assert [] + [8] == [8];
    assert m.listeners == map[OnCreated := [7], OnDestroyed := [8]];
    var alive := {1, 2};

    var t := m.OnActivityEntered(CreatedState, 1);
    assert m.Stored(CreatedState) == [1];
    assert t == Calls(OnCreated, [7], 1, Flag(true)) + Calls(OnLifecycleChanged, [], 1, Changed(Created));
    assert t == [Call(OnCreated, 7, 1, Flag(true))];

    t := m.OnActivityEntered(CreatedState, 2);
    assert m.Stored(CreatedState) == [2, 1];
    assert t == [Call(OnCreated, 7, 2, Flag(false))];

    var list := m.GetActivityList(CreatedState, alive);
    assert LiveOnly([2, 1], alive) == [2, 1] by {
      assert [2, 1][1..] == [1];
      assert [1][1..] == [];
    }
    assert list == [1, 2];
    assert m.LastActivity(CreatedState, alive) == Some(2);
    assert m.FirstActivity(CreatedState, alive) == Some(1);
    DestroyBoth(m);
  }

  /** The second half of CreateTwoDestroyBoth: activity 1 is destroyed, then activity 2. */
  method DestroyBoth(m: Monitor)
    requires m.Stored(CreatedState) == [2, 1]
    requires m.listeners == map[OnCreated := [7], OnDestroyed := [8]]
    modifies m
  {
    var alive := {1, 2};
    var t := m.OnActivityExited(CreatedState, 1, alive);
    assert m.Stored(CreatedState) == [2] by {
      assert [2, 1][1..] == [1];
      assert [1][1..] == [];
    }
    assert t == [Call(OnDestroyed, 8, 1, Flag(false))];

    t := m.OnActivityExited(CreatedState, 2, alive);
    assert m.Stored(CreatedState) == [];
    assert t == [Call(OnDestroyed, 8, 2, Flag(true))];
  }
}
