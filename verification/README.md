# Activity monitor — a Dafny model

This project models the activity registry of `ActivityMonitor`, an Android
library that follows the lifecycle of every Activity of an application and
notifies registered listeners of each transition.

The monitor keeps three sequences of weak references to activities: one for
created, one for started and one for resumed activities. Each is stored
newest-first. The host's lifecycle callbacks update them:

- an entry event (created, started, resumed) puts a new handle at index 0;
- an exit event (paused, stopped, destroyed) sweeps the matching sequence and
  removes every handle that is stale or that refers to the exiting activity.

After each change the monitor calls the listeners of that event in
registration order, then every lifecycle-changed listener. Entry listeners
get `isFirst` (the new count is 1). Exit listeners get `isLast` (the count
after the sweep is at most 0). There are eight listener collections. Each is
created on first registration, keeps duplicates, and loses one equal
occurrence per unregistration. `observe*` refuses an owner that is already
destroyed. Otherwise it registers the listener and attaches an observer that
unregisters it when the owner reaches ON_DESTROY.

Files:

- `lifecycle.dfy` (module `Lifecycle`): identities, the three tracked states,
  the event constants, the eight listener kinds, owner states and events,
  the `Call` record that stands for one listener invocation, and
  `HostCallback`, one call of the host into the lifecycle callbacks.
- `handles.dfy` (module `Handles`): pure functions over a handle sequence:
  the live filter, the exit sweep, reversal, the two ends, and their lemmas.
- `listeners.dfy` (module `Listeners`): removal of one occurrence, the calls of
  one dispatch, and counting the calls that reach a listener; then the same
  over the whole listener map: unregistration and the calls of one event.
- `monitor.dfy` (module `ActivityMonitor`): the `Monitor` class with the three
  sequences and the listener map as fields, the getters, the callbacks,
  register / unregister / observe, and the auto-unregistering observer. It
  ends with a client, `CreateTwoDestroyBoth` / `DestroyBoth`, that creates two
  activities and destroys them again, using only the contracts.
- `wrappers.dfy` (module `Wrappers`): `Option` (a Java `null` result) and
  `Outcome` (a thrown exception).

Modelling choices:

- The seven copies of each callback and getter become one operation with a
  `StateKind` or `ListenerKind` parameter. `CreatedState` pairs with
  onActivityCreated / onActivityDestroyed, `StartedState` with started /
  stopped, `ResumedState` with resumed / paused.
- An activity or a listener is a `nat` identity. `WeakReference.get()`
  returning non-null is modelled as membership in an `alive` set, passed to
  every operation that reads a referent.
- A listener collection that is still `null` is a key missing from the map
  `listeners`. A collection that becomes empty after unregistration stays in
  the map, as the Java list object stays allocated.
- Listener callbacks are user code. Every dispatch returns the calls it makes
  as a trace of `Call` records.

Some behaviour of the code is easy to misread; the model keeps it as written:

- `get*ActivityList` reverses the newest-first store, so its result lists the
  EARLIEST entry first, not the most recent.
- `getLast*Activity` reads index 0 (the newest entry).
  `getFirst*Activity` reads the last index (the oldest entry).
  Neither skips a stale handle.
- `get*ActivityCount` is the size of the stored sequence, stale handles
  included. It is not the number of live activities.
- Entry does not look for an existing handle. "At most once per sequence"
  (`Monitor.WellFormed`) therefore holds only while the host never reports an
  activity entering a state it is already in. The callbacks preserve it under
  that condition.

## Model

| member | source | states |
|---|---|---|
| ActivityMonitor.Monitor.constructor | activitymonitor/src/main/java/com/github/panpf/activity/monitor/ActivityMonitor.java:45-70 | the monitor starts with three empty handle sequences and no listener collection |
| ActivityMonitor.Monitor.Count | activitymonitor/src/main/java/com/github/panpf/activity/monitor/ActivityMonitor.java:81-97 | a count is the length of the stored sequence, stale handles included, and is zero exactly when that sequence is empty |
| ActivityMonitor.Monitor.IsRunningForeground | activitymonitor/src/main/java/com/github/panpf/activity/monitor/ActivityMonitor.java:77-79 | the app is in the foreground iff the started sequence is non-empty (started count > 0) |
| ActivityMonitor.Monitor.CountIncludesStale | activitymonitor/src/main/java/com/github/panpf/activity/monitor/ActivityMonitor.java:81-155 | the getter's list is never longer than the count, and is as long exactly when every stored handle is live |
| ActivityMonitor.Monitor.GetActivityList | activitymonitor/src/main/java/com/github/panpf/activity/monitor/ActivityMonitor.java:100-155 | the loop that collects live referents, followed by the reversal, returns the reversed live filter of the stored sequence |
| Handles.OldestFirstLiveProperties | activitymonitor/src/main/java/com/github/panpf/activity/monitor/ActivityMonitor.java:100-155 | the list holds exactly the live referents, in reverse stored order (earliest entry first); it is no longer than the store and empty for an empty store |
| Handles.LiveOnly | activitymonitor/src/main/java/com/github/panpf/activity/monitor/ActivityMonitor.java:108-113 | the collecting loop keeps exactly the stored handles whose referent is alive and never grows the sequence |
| Handles.LiveOnlyIsSubsequence | activitymonitor/src/main/java/com/github/panpf/activity/monitor/ActivityMonitor.java:108-113 | the live handles keep their stored relative order |
| Handles.LiveOnlyMultiplicity | activitymonitor/src/main/java/com/github/panpf/activity/monitor/ActivityMonitor.java:108-113 | a live referent keeps every one of its occurrences; a stale one keeps none |
| Handles.LiveOnlyKeepsAll | activitymonitor/src/main/java/com/github/panpf/activity/monitor/ActivityMonitor.java:108-113 | nothing is dropped exactly when every stored handle is live |
| Handles.LiveOnlyDistinct | activitymonitor/src/main/java/com/github/panpf/activity/monitor/ActivityMonitor.java:108-113 | filtering a sequence without repeats gives a sequence without repeats |
| Handles.Reverse | activitymonitor/src/main/java/com/github/panpf/activity/monitor/ActivityMonitor.java:114 | the reversal puts element i at position length-1-i |
| ActivityMonitor.Monitor.LastActivity | activitymonitor/src/main/java/com/github/panpf/activity/monitor/ActivityMonitor.java:157-182 | the result is the referent at index 0; it is absent exactly when the sequence is empty or that handle is stale; when present it is the last element of the getter's list |
| ActivityMonitor.Monitor.FirstActivity | activitymonitor/src/main/java/com/github/panpf/activity/monitor/ActivityMonitor.java:184-209 | the result is the referent at the last index; it is absent exactly when the sequence is empty or that handle is stale; when present it is the first element of the getter's list |
| Handles.EndsAgreeWithList | activitymonitor/src/main/java/com/github/panpf/activity/monitor/ActivityMonitor.java:157-209 | a present "last" end is the list's final element and a present "first" end its first element; an absent end means an empty store or a stale end handle |
| Handles.StaleEndIsNotSkipped | activitymonitor/src/main/java/com/github/panpf/activity/monitor/ActivityMonitor.java:157-209 | for any store with a live handle, a stale newest handle makes "last" absent and a stale oldest handle makes "first" absent, while the list still holds that live activity |
| Handles.EnterAllPrepends | activitymonitor/src/main/java/com/github/panpf/activity/monitor/ActivityMonitor.java:466 | entering activities one after another puts them in front of the store, newest first |
| Handles.EntriesFromEmpty | activitymonitor/src/main/java/com/github/panpf/activity/monitor/ActivityMonitor.java:100-209 | after entries with no exit, all still alive, the list is the arrival order, "last" is the latest entrant and "first" the earliest |
| Handles.PrependDistinct | activitymonitor/src/main/java/com/github/panpf/activity/monitor/ActivityMonitor.java:466 | a prepended handle keeps a sequence without repeats iff the activity was not in it yet |
| ActivityMonitor.Monitor.OnActivityEntered | activitymonitor/src/main/java/com/github/panpf/activity/monitor/ActivityMonitor.java:463-535 | a handle for the activity is prepended at index 0 with the old sequence as tail (count + 1); nothing else changes; the state's listeners get isFirst == (new count == 1), which holds iff the sequence was empty; a start makes the app foreground; at most once per sequence is kept when the activity was not in it |
| Handles.Sweep | activitymonitor/src/main/java/com/github/panpf/activity/monitor/ActivityMonitor.java:541-548 | the sweep keeps exactly the handles that are live and not the exiting activity, and never grows the sequence |
| Handles.SweepIsLiveOnly | activitymonitor/src/main/java/com/github/panpf/activity/monitor/ActivityMonitor.java:541-548 | the sweep is the live filter with the exiting activity counted as dead |
| Handles.SweepProperties | activitymonitor/src/main/java/com/github/panpf/activity/monitor/ActivityMonitor.java:541-548 | after the sweep the exiting activity and stale handles are gone; survivors keep their order and multiplicity; no repeat appears; the result is empty iff every handle was stale or the exiting activity |
| ActivityMonitor.Monitor.SweepStored | activitymonitor/src/main/java/com/github/panpf/activity/monitor/ActivityMonitor.java:541-548 | the iterator loop leaves the swept sequence and changes nothing else |
| ActivityMonitor.Monitor.OnActivityExited | activitymonitor/src/main/java/com/github/panpf/activity/monitor/ActivityMonitor.java:537-653 | the state's sequence becomes its sweep; other sequences and listeners are unchanged; the length never grows; the exit listeners get isLast == (count <= 0), which holds iff every old handle was stale or the exiting activity; at most once per sequence is preserved |
| ActivityMonitor.Monitor.OnActivitySaveInstanceState | activitymonitor/src/main/java/com/github/panpf/activity/monitor/ActivityMonitor.java:603-620 | no sequence changes; the save-instance-state listeners, then the lifecycle-changed listeners, are called |
| Listeners.Calls | activitymonitor/src/main/java/com/github/panpf/activity/monitor/ActivityMonitor.java:473-475 | one dispatch makes one call per registration, in registration order |
| ActivityMonitor.Notify | activitymonitor/src/main/java/com/github/panpf/activity/monitor/ActivityMonitor.java:472-476 | the loop over one collection makes exactly the calls of Calls |
| ActivityMonitor.Monitor.Dispatch | activitymonitor/src/main/java/com/github/panpf/activity/monitor/ActivityMonitor.java:470-484 | an event calls its own collection (never the lifecycle-changed one), then the lifecycle-changed collection with the event constant; an absent or empty collection makes no call |
| Listeners.EventReachesEachRegistration | activitymonitor/src/main/java/com/github/panpf/activity/monitor/ActivityMonitor.java:470-484 | every registration of the event's own collection is called once, in order (twice for a listener registered twice), followed by every lifecycle-changed listener with the event constant; no listener of another collection is called |
| Listeners.CallsPerRegistration | activitymonitor/src/main/java/com/github/panpf/activity/monitor/ActivityMonitor.java:470-483 | a listener receives as many calls as it has registrations, and none when it has none |
| ActivityMonitor.Monitor.Register | activitymonitor/src/main/java/com/github/panpf/activity/monitor/ActivityMonitor.java:212-223 | the listener is appended at the end of its collection, which is created if absent; duplicates stay; no sequence changes |
| Listeners.Unregistered | activitymonitor/src/main/java/com/github/panpf/activity/monitor/ActivityMonitor.java:225-232 | unregistering from one collection changes only that collection, removing one occurrence, and never creates an absent collection |
| ActivityMonitor.Monitor.Unregister | activitymonitor/src/main/java/com/github/panpf/activity/monitor/ActivityMonitor.java:225-232 | one equal occurrence is removed from an existing collection; an absent collection or a missing listener changes nothing |
| Listeners.RemoveFirst | activitymonitor/src/main/java/com/github/panpf/activity/monitor/ActivityMonitor.java:229 | removing a present listener drops exactly one occurrence; removing an absent one changes nothing |
| Listeners.RemoveFirstAt | activitymonitor/src/main/java/com/github/panpf/activity/monitor/ActivityMonitor.java:229 | the occurrence removed is the earliest one, and the others keep their order |
| Listeners.UnregisterAfterRegister | activitymonitor/src/main/java/com/github/panpf/activity/monitor/ActivityMonitor.java:212-232 | unregistering right after registering restores the collection when the listener was new; otherwise the older copy goes; the registrations as a multiset are as before |
| ActivityMonitor.Monitor.Observe | activitymonitor/src/main/java/com/github/panpf/activity/monitor/ActivityMonitor.java:234-240 | an owner that is already destroyed gets IllegalState and nothing changes; otherwise the listener is registered |
| ActivityMonitor.Monitor.OnOwnerStateChanged | activitymonitor/src/main/java/com/github/panpf/activity/monitor/ActivityMonitor.java:656-671 | on ON_DESTROY the listener is unregistered and the observer detaches; every other owner event changes nothing |
| Listeners.SilentAfterUnregister | activitymonitor/src/main/java/com/github/panpf/activity/monitor/ActivityMonitor.java:664-669 | a listener registered once gets no further calls from its collection once it is unregistered |
| Listeners.SilentAfterOwnerDestroyed | activitymonitor/src/main/java/com/github/panpf/activity/monitor/ActivityMonitor.java:656-790 | for each of the eight collections, a listener observed once gets one call from each event its collection hears (every event for a lifecycle-changed listener) and none from any event once its owner's ON_DESTROY has unregistered it |
| ActivityMonitor.Monitor.Deliver | activitymonitor/src/main/java/com/github/panpf/activity/monitor/ActivityMonitor.java:453-653 | a host callback makes the sequence change and the calls of the entry, exit or save-instance-state callback it names, and leaves the listeners alone |
| ActivityMonitor.Monitor.DestroyOwnerThenDeliver | activitymonitor/src/main/java/com/github/panpf/activity/monitor/ActivityMonitor.java:656-790 | after the owner of a listener observed once reaches ON_DESTROY, whatever callback the host makes next calls that listener zero times, and the sequences change as that callback changes them |

## Left out

- Locking (`COUNT_EDIT_LOCK`, `LIST_EDIT_LOCK`) and concurrent callers: each operation is modelled as one atomic step.
- Garbage collection behind `WeakReference`: which referents are alive is an input set, not simulated reclamation.
- `init` and `ActivityMonitorInitProvider`: they only register the callbacks with the `Application`.
- The `Bundle` arguments of onActivityCreated and onActivitySaveInstanceState: they are passed through to listeners untouched, and a `Call` does not record them.
- Listener callback bodies: opaque user code, recorded as `Call` entries in a trace.
- `Lifecycle.getCurrentState`, `addObserver` and `removeObserver`: the owner's state is a parameter of `Observe`; attaching the observer is its `Pass` result; detaching is the `detached` result of `OnOwnerStateChanged`.
- Listener equality: `unregister*` removes the first element `equals` to its argument, which can be a different object from the one passed. A `ListenerId` stands for one `equals` class of listener objects, so a trace does not tell which of two equal listener objects was called or removed.
- Identity across collections: a Java object that implements several listener interfaces has one `ListenerId` per collection, and collections are never compared with each other.
- ActivityMonitor.Monitor.Dispatch and ActivityMonitor.Notify: every listener call is assumed to return normally without touching the collections. In the code, a listener that throws stops the rest of the dispatch, and the sequence change made before it (466, 541-548) stays. A listener can also edit the collection being walked: the lock is reentrant, so it does not prevent this (473, 480, 498, 523, 556, 589, 608, 641, 648). The for-each walks the live `LinkedList`, whose iterator continues while the next index is below the current size and checks for edits on every step. Registering from inside a callback therefore throws `ConcurrentModificationException` on the next step. Unregistering one entry also throws it, except near the end of the walk. During the call to the last entry, the loop ends normally. During the call to the second-to-last entry, the loop ends quietly and the remaining listener is not called for that event. Neither outcome is modelled.
- ActivityMonitor.Monitor.Count: Java's `int` size is modelled as an unbounded `nat`, because no realistic app reaches 2^31 activities.
