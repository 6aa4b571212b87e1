/**
 * The vocabulary of the activity monitor: identities, the three tracked
 * states, the lifecycle events reported to listeners, the eight listener
 * collections, and the host's lifecycle-owner states and events used by the
 * auto-unregistering observers.
 */
module Lifecycle {

  /** Identity of an activity instance (Java reference identity). */
  type ActivityId = nat

  /** Identity of a listener object (compared with `equals`, here `==`). */
  type ListenerId = nat

  /** The three states for which the monitor keeps a newest-first handle sequence. */
  datatype StateKind = CreatedState | StartedState | ResumedState

  /** The constants passed to lifecycle-changed listeners. */
  datatype LifecycleEvent =
    | Created | Started | Resumed | Paused | Stopped | Destroyed | SaveInstanceState

  /** One listener collection per callback interface. */
  datatype ListenerKind =
    | OnCreated | OnStarted | OnResumed | OnPaused | OnStopped | OnDestroyed
    | OnSaveInstanceState | OnLifecycleChanged

  /** The host's lifecycle-owner states (androidx Lifecycle.State). */
  datatype OwnerState = OwnerDestroyed | OwnerInitialized | OwnerCreated | OwnerStarted | OwnerResumed

  /** The host's lifecycle-owner events (androidx Lifecycle.Event). */
  datatype OwnerEvent = OnCreate | OnStart | OnResume | OnPause | OnStop | OnDestroy | OnAny

  /** The exception `observe*` throws for an owner that is already destroyed. */
  datatype ObserveError = IllegalState

  /** The event an entry into `k` reports to lifecycle-changed listeners. */
  function EntryEvent(k: StateKind): LifecycleEvent
  {
    match k
    case CreatedState => Created
    case StartedState => Started
    case ResumedState => Resumed
  }

  /** The event an exit from `k` reports: leaving "resumed" is a pause, and so on. */
  function ExitEvent(k: StateKind): LifecycleEvent
  {
    match k
    case CreatedState => Destroyed
    case StartedState => Stopped
    case ResumedState => Paused
  }

  /** The listener collection notified on entry into `k`. */
  function EntryListeners(k: StateKind): ListenerKind
  {
    match k
    case CreatedState => OnCreated
    case StartedState => OnStarted
    case ResumedState => OnResumed
  }

  /** The listener collection notified on exit from `k`. */
  function ExitListeners(k: StateKind): ListenerKind
  {
    match k
    case CreatedState => OnDestroyed
    case StartedState => OnStopped
    case ResumedState => OnPaused
  }

  /** What a single listener call carries besides the activity. */
  datatype Notice =
    | Flag(value: bool)             // isFirst on entry, isLast on exit
    | SavedState                    // onActivitySaveInstanceState (the Bundle is not modelled)
    | Changed(event: LifecycleEvent) // onActivityLifecycleChanged

  /** One listener invocation, recorded instead of running opaque user code. */
  datatype Call = Call(kind: ListenerKind, listener: ListenerId, activity: ActivityId, notice: Notice)

  /**
   * One call the host makes into the registered lifecycle callbacks: an
   * activity entering a tracked state, leaving it (with the set of
   * referents still reachable at that moment), or saving its state.
   */
  datatype HostCallback =
    | Entered(state: StateKind, activity: ActivityId)
    | Exited(state: StateKind, activity: ActivityId, alive: set<ActivityId>)
    | InstanceStateSaved(activity: ActivityId)
}
