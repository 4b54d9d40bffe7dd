/** ManagerBase: a component with an initialised flag, toggled by Initialize and
    Deinitialize around the overridable hooks and the two notifications. Destroying the
    component deinitialises it. Hooks, notifications and the warning log are recorded
    in a trace; each hook event carries the flag's value while the hook runs. */
module Managers {

  datatype ManagerEvent =
    | InitializeHook(initializedDuring: bool)      // OnInitialize
    | InitializedRaised                            // OnInitialized
    | AlreadyInitialized                           // "manager is already initialized" warning
    | DeinitializeHook(initializedDuring: bool)    // OnDeinitialize
    | DeinitializedRaised                          // OnDeinitialized

  /** The manager's flag and trace as one value. */
  datatype ManagerState = ManagerState(initialized: bool, trace: seq<ManagerEvent>)

  function InitializeOf(m: ManagerState): ManagerState {
    if m.initialized then m.(trace := m.trace + [AlreadyInitialized])
    else ManagerState(true, m.trace + [InitializeHook(false), InitializedRaised])
  }

  function DeinitializeOf(m: ManagerState): ManagerState {
    if !m.initialized then m
    else ManagerState(false, m.trace + [DeinitializeHook(true), DeinitializedRaised])
  }

  /** The calls a manager receives; OnDestroy is the engine destroying it. */
  datatype ManagerCall = InitializeCall | DeinitializeCall | DestroyCall

  function Apply(m: ManagerState, call: ManagerCall): ManagerState {
    match call
    case InitializeCall => InitializeOf(m)
    case DeinitializeCall => DeinitializeOf(m)
    case DestroyCall => DeinitializeOf(m)
  }

  function RunCalls(m: ManagerState, calls: seq<ManagerCall>): ManagerState
    decreases |calls|
  {
    if calls == [] then m else RunCalls(Apply(m, calls[0]), calls[1..])
  }

  /** The trace without its warnings: the hooks and notifications only. */
  function Lifecycle(trace: seq<ManagerEvent>): seq<ManagerEvent>
    decreases |trace|
  {
    if trace == [] then []
    else
      var last := trace[|trace| - 1];
      Lifecycle(trace[..|trace| - 1]) + (if last.AlreadyInitialized? then [] else [last])
  }

  /** One initialisation and the deinitialisation that ends it. */
  const Cycle: seq<ManagerEvent> :=
    [InitializeHook(false), InitializedRaised, DeinitializeHook(true), DeinitializedRaised]

  /** The lifecycle repeats the cycle: hook before notification, OnInitialize sees the
      flag still false and OnDeinitialize sees it still true, and notifications
      alternate starting with OnInitialized. The flag is set exactly between an
      initialisation and its deinitialisation. */
  ghost predicate Alternates(m: ManagerState) {
    var l := Lifecycle(m.trace);
    && (forall i :: 0 <= i < |l| ==> l[i] == Cycle[i % 4])
    && |l| % 2 == 0
    && (m.initialized <==> |l| % 4 == 2)
  }

  lemma LifecycleAppend(trace: seq<ManagerEvent>, a: ManagerEvent, b: ManagerEvent)
    requires !a.AlreadyInitialized? && !b.AlreadyInitialized?
    ensures Lifecycle(trace + [a, b]) == Lifecycle(trace) + [a, b]
  {
    assert (trace + [a, b])[..|trace| + 1] == trace + [a];
    assert (trace + [a])[..|trace|] == trace;
  }

  /** Appending the next two events of the cycle keeps the lifecycle in order. */
  lemma ExtendCycle(l: seq<ManagerEvent>, k: nat)
    requires forall i :: 0 <= i < |l| ==> l[i] == Cycle[i % 4]
    requires |l| % 4 == k && (k == 0 || k == 2)
    ensures var l' := l + [Cycle[k], Cycle[k + 1]];
      forall i :: 0 <= i < |l'| ==> l'[i] == Cycle[i % 4]
  {
    var l' := l + [Cycle[k], Cycle[k + 1]];
    forall i | 0 <= i < |l'| ensures l'[i] == Cycle[i % 4] {
      if i == |l| + 1 {
        assert i % 4 == k + 1;
      }
    }
  }

  /** Every call keeps the lifecycle in order; a warning adds nothing to it. */
  lemma CallKeepsAlternation(m: ManagerState, call: ManagerCall)
    requires Alternates(m)
    ensures Alternates(Apply(m, call))
  {
    var l := Lifecycle(m.trace);
    if call.InitializeCall? && m.initialized {
      assert (m.trace + [AlreadyInitialized])[..|m.trace|] == m.trace;
      assert Lifecycle(Apply(m, call).trace) == l;
    } else if call.InitializeCall? {
      LifecycleAppend(m.trace, InitializeHook(false), InitializedRaised);
      ExtendCycle(l, 0);
    } else if m.initialized {
      LifecycleAppend(m.trace, DeinitializeHook(true), DeinitializedRaised);
      ExtendCycle(l, 2);
    }
  }

  /** From a fresh manager, any sequence of Initialize, Deinitialize and destroy calls
      yields an ordered lifecycle: OnDeinitialized fires at most once per
      initialisation, and only after it. */
  lemma {:induction false} RunKeepsAlternation(m: ManagerState, calls: seq<ManagerCall>)
    requires Alternates(m)
    ensures Alternates(RunCalls(m, calls))
    decreases |calls|
  {
    if calls != [] {
      CallKeepsAlternation(m, calls[0]);
      RunKeepsAlternation(Apply(m, calls[0]), calls[1..]);
    }
  }

  lemma FreshManagerAlternates()
    ensures Alternates(ManagerState(false, []))
  {
  }

  /** A second Initialize only warns, and a Deinitialize of an uninitialised manager does
      nothing at all. */
  lemma RepeatedCallsAreHarmless(m: ManagerState)
    ensures InitializeOf(InitializeOf(m)).initialized
    ensures InitializeOf(InitializeOf(m)).trace == InitializeOf(m).trace + [AlreadyInitialized]
    ensures DeinitializeOf(DeinitializeOf(m)) == DeinitializeOf(m)
  {
  }

  class Manager {
    var isInitialized: bool
    var trace: seq<ManagerEvent>

    function Value(): ManagerState
      reads this
    {
      ManagerState(isInitialized, trace)
    }

    constructor ()
      ensures Value() == ManagerState(false, [])
    {
      isInitialized, trace := false, [];
    }

    method Initialize()
      modifies this
      ensures Value() == InitializeOf(old(Value()))
    {
      if isInitialized {
        trace := trace + [AlreadyInitialized];
        return;
      }
      trace := trace + [InitializeHook(isInitialized)];
      isInitialized := true;
      trace := trace + [InitializedRaised];
    }

    method Deinitialize()
      modifies this
      ensures Value() == DeinitializeOf(old(Value()))
    {
      if !isInitialized {
        return;
      }
      trace := trace + [DeinitializeHook(isInitialized)];
      isInitialized := false;
      trace := trace + [DeinitializedRaised];
    }

    /** The engine's OnDestroy message. */
    method OnDestroy()
      modifies this
      ensures Value() == DeinitializeOf(old(Value()))
    {
      Deinitialize();
    }
  }
}
