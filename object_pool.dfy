/** The queue-backed object pool (ObjectPool<T>) together with the overrides that
    NativeObjectPool<T> plugs into it.

    The pool is described twice: as functions from one `PoolState` value to the next
    (AfterGet, AfterRelease, AfterFill, AfterClear and the hooks they call), and as the
    class `Pool`, whose fields the methods update in place and whose every method
    promises that its new `State()` is the matching function of the old one.

    The user callbacks and the engine calls are opaque: each call is recorded as an
    `Event` appended to the state's trace, so the order of calls can be stated. The
    creation function is modelled as handing out a new handle numbered by the count of
    elements the pool created so far. */
module ObjectPool {
  import opened Wrappers

  /** A pooled element: its runtime type name and a serial number telling apart the
      elements that one pool created. */
  datatype Obj = Obj(typeName: string, serial: nat)

  /** A prefab (template) object: its runtime type name and its identity. */
  datatype Prefab = Prefab(typeName: string, id: nat)

  /** The transform that prefab copies are created under (`NoParent` is null). */
  datatype Parent = NoParent | Transform(id: nat)

  /** How the pool creates elements: by the user's creation function, or (native
      pools without a creation function only) by copying a prefab. */
  datatype Creation =
    | CreateFunction(producedType: string)
    | InstantiatePrefab(prefab: Prefab, parent: Parent)

  /** Everything fixed when a pool is constructed. `native` selects the overrides of
      NativeObjectPool<T>; the three `has...Callback` flags say which optional
      callbacks were supplied (non-null). */
  datatype Config = Config(
    native: bool,
    creation: Creation,
    hasTakeCallback: bool,
    hasReturnCallback: bool,
    hasDestroyCallback: bool,
    collectionCheck: bool,
    maxSize: int)

  /** A plain ObjectPool<T> can only create through its creation function. */
  predicate WellFormed(c: Config) {
    c.native || c.creation.CreateFunction?
  }

  /** The maximum size that switches the bound off. */
  const Unbounded: int := -1

  /** One call made by the pool, in the order it is made. */
  datatype Event =
    | CreateCalled(o: Obj)                  // the user's creation function ran and produced o
    | Instantiated(o: Obj, parent: Parent)  // the engine copied the prefab into o
    | ActiveSet(o: Obj, active: bool)       // o.gameObject.SetActive(active)
    | TakeCalled(o: Obj)                    // the user's take callback ran on o
    | ReturnCalled(o: Obj)                  // the user's return callback ran on o
    | DestroyCalled(o: Obj)                 // the user's destroy callback ran on o
    | GameObjectDestroyed(o: Obj)           // Object.Destroy(o.gameObject)

  /** The idle queue (front = oldest), the active counter, the number of elements
      created so far, the engine-side flags of the objects the pool touched, and the
      trace of calls. */
  datatype PoolState = PoolState(
    pooled: seq<Obj>,
    countActive: int,
    created: nat,
    active: map<Obj, bool>,
    destroyed: set<Obj>,
    trace: seq<Event>)

  /** The exception Release throws in the editor when the collection check fires. */
  datatype PoolError = AlreadyInPool

  /** The state of a newly constructed pool. */
  function Initial(): PoolState {
    PoolState([], 0, 0, map[], {}, [])
  }

  /** Type of the elements the creation step produces. */
  function CreatedType(c: Config): string {
    match c.creation
    case CreateFunction(t) => t
    case InstantiatePrefab(p, _) => p.typeName
  }

  /** The element the next creation step produces. */
  function NextElement(c: Config, s: PoolState): Obj {
    Obj(CreatedType(c), s.created)
  }

  /** Sets the engine active flag of `o`. */
  function Activated(s: PoolState, o: Obj, b: bool): PoolState {
    s.(active := s.active[o := b], trace := s.trace + [ActiveSet(o, b)])
  }

  /** CreateElement: the custom creation function, or a prefab copy under the parent
      that is deactivated at once. */
  function AfterCreate(c: Config, s: PoolState): (PoolState, Obj) {
    var o := NextElement(c, s);
    match c.creation
    case CreateFunction(_) =>
      (s.(created := s.created + 1, trace := s.trace + [CreateCalled(o)]), o)
    case InstantiatePrefab(_, parent) =>
      var s1 := s.(created := s.created + 1, trace := s.trace + [Instantiated(o, parent)]);
      (Activated(s1, o, false), o)
  }

  /** OnTakenFromPool: native pools activate the element, then the callback runs. */
  function AfterTaken(c: Config, s: PoolState, o: Obj): PoolState {
    var s1 := if c.native then Activated(s, o, true) else s;
    s1.(trace := s1.trace + if c.hasTakeCallback then [TakeCalled(o)] else [])
  }

  /** OnReturnedToPool: native pools deactivate the element, then the callback runs. */
  function AfterReturned(c: Config, s: PoolState, o: Obj): PoolState {
    var s1 := if c.native then Activated(s, o, false) else s;
    s1.(trace := s1.trace + if c.hasReturnCallback then [ReturnCalled(o)] else [])
  }

  /** OnDestroyedInPool: the callback runs, then native pools destroy the game object. */
  function AfterDestroyed(c: Config, s: PoolState, o: Obj): PoolState {
    var s1 := s.(trace := s.trace + if c.hasDestroyCallback then [DestroyCalled(o)] else []);
    if c.native then s1.(destroyed := s1.destroyed + {o}, trace := s1.trace + [GameObjectDestroyed(o)])
    else s1
  }

  /** Get: the oldest idle element, or a new one when the queue is empty. */
  function AfterGet(c: Config, s: PoolState): (PoolState, Obj) {
    var (s1, o) := if |s.pooled| == 0 then AfterCreate(c, s) else (s.(pooled := s.pooled[1..]), s.pooled[0]);
    var s2 := AfterTaken(c, s1, o);
    (s2.(countActive := s2.countActive + 1), o)
  }

  /** Whether Release keeps the element: no bound, or the queue is below it. */
  predicate HasRoom(c: Config, s: PoolState) {
    c.maxSize == Unbounded || |s.pooled| < c.maxSize
  }

  /** Release: the editor-only duplicate check, then enqueue or destroy, then the
      active counter goes down in every case. */
  function AfterRelease(c: Config, inEditor: bool, s: PoolState, o: Obj): Result<PoolState, PoolError> {
    if inEditor && c.collectionCheck && o in s.pooled then Failure(AlreadyInPool)
    else
      var s1 := if HasRoom(c, s) then AfterReturned(c, s.(pooled := s.pooled + [o]), o)
                else AfterDestroyed(c, s, o);
      Success(s1.(countActive := s1.countActive - 1))
  }

  /** FillPool(n): n creation steps, each element enqueued; no hook runs. */
  function AfterFill(c: Config, s: PoolState, n: int): PoolState
    decreases n
  {
    if n <= 0 then s
    else
      var (s1, o) := AfterCreate(c, AfterFill(c, s, n - 1));
      s1.(pooled := s1.pooled + [o])
  }

  /** The raw destroy callback run once per element of `xs`, in order. */
  function DestroyCallbacks(c: Config, xs: seq<Obj>): seq<Event> {
    if c.hasDestroyCallback then seq(|xs|, i requires 0 <= i < |xs| => DestroyCalled(xs[i])) else []
  }

  /** Clear: every idle element goes through the raw destroy callback (not through
      OnDestroyedInPool), the queue empties and the active counter is reset. */
  function AfterClear(c: Config, s: PoolState): PoolState {
    s.(pooled := [], countActive := 0, trace := s.trace + DestroyCallbacks(c, s.pooled))
  }

  /** The total of active and idle elements. */
  function TotalCount(s: PoolState): int {
    s.countActive + |s.pooled|
  }

  // ---------------------------------------------------------------------------
  // Properties of the pool operations

  /** Get hands out the oldest idle element and removes it from the front, or, on an
      empty queue, a newly created element; it bumps the active counter by one. */
  lemma GetIsFifo(c: Config, s: PoolState)
    ensures var (s', o) := AfterGet(c, s);
      && s'.countActive == s.countActive + 1
      && (s.pooled != [] ==> o == s.pooled[0] && s'.pooled == s.pooled[1..] && s'.created == s.created)
      && (s.pooled == [] ==> o == NextElement(c, s) && s'.pooled == [] && s'.created == s.created + 1)
  {
  }

  /** The take callback is the last call Get makes, and it runs on the returned element. */
  lemma GetEndsWithTakeCallback(c: Config, s: PoolState)
    requires c.hasTakeCallback
    ensures var (s', o) := AfterGet(c, s);
      |s'.trace| > |s.trace| && s'.trace[|s'.trace| - 1] == TakeCalled(o)
  {
  }

  /** The total grows only when Get had to create a new element. */
  lemma GetCountAll(c: Config, s: PoolState)
    ensures TotalCount(AfterGet(c, s).0) == TotalCount(s) + (if s.pooled == [] then 1 else 0)
  {
  }

  /** Release fails exactly when the editor's collection check finds the element queued. */
  lemma ReleaseFailsOnlyOnDuplicate(c: Config, inEditor: bool, s: PoolState, o: Obj)
    ensures AfterRelease(c, inEditor, s, o).Failure? <==> inEditor && c.collectionCheck && o in s.pooled
  {
  }

  /** With room, Release appends at the back and runs the return hook; without room it
      runs only the destroy hook and leaves the queue alone. The active counter goes
      down by one in both cases, whatever element was released. */
  lemma ReleasePolicy(c: Config, inEditor: bool, s: PoolState, o: Obj)
    requires !(inEditor && c.collectionCheck && o in s.pooled)
    ensures AfterRelease(c, inEditor, s, o).Success?
    ensures var s' := AfterRelease(c, inEditor, s, o).value;
      && s'.countActive == s.countActive - 1
      && (HasRoom(c, s) ==>
            s'.pooled == s.pooled + [o]
            && s'.trace == s.trace + (if c.native then [ActiveSet(o, false)] else [])
                                   + (if c.hasReturnCallback then [ReturnCalled(o)] else []))
      && (!HasRoom(c, s) ==>
            s'.pooled == s.pooled
            && s'.trace == s.trace + (if c.hasDestroyCallback then [DestroyCalled(o)] else [])
                                   + (if c.native then [GameObjectDestroyed(o)] else []))
  {
  }

  /** Release never grows the queue past a non-negative bound. */
  lemma ReleaseRespectsBound(c: Config, inEditor: bool, s: PoolState, o: Obj)
    requires 0 <= c.maxSize && |s.pooled| <= c.maxSize
    ensures AfterRelease(c, inEditor, s, o).Success? ==> |AfterRelease(c, inEditor, s, o).value.pooled| <= c.maxSize
  {
  }

  /** A bound of 0, or any bound below -1, turns every release into a destroy. */
  lemma DegenerateBoundAlwaysDestroys(c: Config, inEditor: bool, s: PoolState, o: Obj)
    requires c.maxSize == 0 || c.maxSize < Unbounded
    ensures AfterRelease(c, inEditor, s, o).Success? ==> AfterRelease(c, inEditor, s, o).value.pooled == s.pooled
  {
  }

  /** The total stays when the element is kept, and drops by one when it is destroyed. */
  lemma ReleaseCountAll(c: Config, inEditor: bool, s: PoolState, o: Obj)
    requires AfterRelease(c, inEditor, s, o).Success?
    ensures TotalCount(AfterRelease(c, inEditor, s, o).value) == TotalCount(s) - (if HasRoom(c, s) then 0 else 1)
  {
  }

  /** Taking an idle element and releasing it again into an unbounded pool restores the
      active counter and puts the element at the back of the queue. */
  lemma GetThenReleaseCycles(c: Config, inEditor: bool, s: PoolState)
    requires c.maxSize == Unbounded && s.pooled != []
    ensures var (s1, o) := AfterGet(c, s);
      && AfterRelease(c, inEditor, s1, o).Success? == (!inEditor || !c.collectionCheck || o !in s1.pooled)
      && (AfterRelease(c, inEditor, s1, o).Success? ==>
            AfterRelease(c, inEditor, s1, o).value.countActive == s.countActive
            && AfterRelease(c, inEditor, s1, o).value.pooled == s.pooled[1..] + [s.pooled[0]])
  {
  }

  /** Only creation calls and engine calls appear in a trace segment: no user hook. */
  predicate OnlyCreationCalls(t: seq<Event>) {
    forall k :: 0 <= k < |t| ==> t[k].CreateCalled? || t[k].Instantiated? || t[k].ActiveSet?
  }

  /** FillPool(n) appends max(n, 0) newly created elements after the existing ones,
      calls no take/return/destroy hook and ignores the maximum size and the active
      counter. */
  lemma {:induction false} FillAppendsNewElements(c: Config, s: PoolState, n: int)
    ensures var s' := AfterFill(c, s, n); var k := if n <= 0 then 0 else n;
      && |s'.pooled| == |s.pooled| + k
      && s'.pooled[..|s.pooled|] == s.pooled
      && (forall j :: |s.pooled| <= j < |s'.pooled| ==> s'.pooled[j] == Obj(CreatedType(c), s.created + (j - |s.pooled|)))
      && s'.created == s.created + k
      && s'.countActive == s.countActive
      && s'.destroyed == s.destroyed
      && |s.trace| <= |s'.trace| && s'.trace[..|s.trace|] == s.trace
      && OnlyCreationCalls(s'.trace[|s.trace|..])
    decreases n
  {
    if n > 0 {
      var prev := AfterFill(c, s, n - 1);
      FillAppendsNewElements(c, s, n - 1);
      var (s1, o) := AfterCreate(c, prev);
      var s' := AfterFill(c, s, n);
      assert s' == s1.(pooled := prev.pooled + [o]);
      assert o == Obj(CreatedType(c), s.created + (n - 1));
      assert s1.trace[..|prev.trace|] == prev.trace;
      assert OnlyCreationCalls(s1.trace[|prev.trace|..]);
      assert s'.trace[|s.trace|..] == prev.trace[|s.trace|..] + s1.trace[|prev.trace|..];
    }
  }

  /** Clear runs the raw destroy callback on the idle elements oldest first, empties
      the queue and zeroes the active counter; it destroys no game object. */
  lemma ClearDestroysEachIdleElement(c: Config, s: PoolState)
    ensures var s' := AfterClear(c, s);
      && s'.pooled == [] && s'.countActive == 0
      && s'.trace[..|s.trace|] == s.trace
      && |s'.trace| == |s.trace| + (if c.hasDestroyCallback then |s.pooled| else 0)
      && (c.hasDestroyCallback ==> forall i :: 0 <= i < |s.pooled| ==> s'.trace[|s.trace| + i] == DestroyCalled(s.pooled[i]))
      && s'.active == s.active && s'.destroyed == s.destroyed
  {
  }

  /** Without a bound no element is ever destroyed by Release, so CountAll (active
      plus idle) keeps counting every element the pool has created across Get,
      Release and FillPool. Clear breaks this: it zeroes the active counter. */
  lemma UnboundedPoolAccountsForCreations(c: Config, inEditor: bool, s: PoolState, o: Obj, n: int)
    requires c.maxSize == Unbounded && TotalCount(s) == s.created
    ensures var s' := AfterGet(c, s).0; TotalCount(s') == s'.created
    ensures AfterRelease(c, inEditor, s, o).Success? ==>
      var s' := AfterRelease(c, inEditor, s, o).value; TotalCount(s') == s'.created
    ensures var s' := AfterFill(c, s, n); TotalCount(s') == s'.created
  {
    FillAppendsNewElements(c, s, n);
  }

  /** CountActive counts takes against releases, not elements: releasing into a fresh
      pool an element it never handed out drives the counter below zero. */
  lemma ReleaseOfUntakenGoesNegative(c: Config, inEditor: bool, o: Obj)
    ensures AfterRelease(c, inEditor, Initial(), o).Success?
    ensures AfterRelease(c, inEditor, Initial(), o).value.countActive == -1
  {
  }

  // ---------------------------------------------------------------------------
  // The pool as an object whose fields change in place

  class Pool {
    const config: Config
    /** Whether the build is an editor build (UNITY_EDITOR), fixed at compile time. */
    const inEditor: bool

    var pooled: seq<Obj>
    var countActive: int
    var created: nat
    var active: map<Obj, bool>
    var destroyed: set<Obj>
    var trace: seq<Event>

    /** The abstract value of the pool. */
    function State(): PoolState
      reads this
    {
      PoolState(pooled, countActive, created, active, destroyed, trace)
    }

    constructor (config: Config, inEditor: bool)
      requires WellFormed(config)
      ensures this.config == config && this.inEditor == inEditor
      ensures State() == Initial()
    {
      this.config := config;
      this.inEditor := inEditor;
      pooled, countActive, created := [], 0, 0;
      active, destroyed, trace := map[], {}, [];
    }

    method SetActive(o: Obj, b: bool)
      modifies this
      ensures State() == Activated(old(State()), o, b)
    {
      active := active[o := b];
      trace := trace + [ActiveSet(o, b)];
    }

    method CreateElement() returns (o: Obj)
      modifies this
      ensures (State(), o) == AfterCreate(config, old(State()))
    {
      o := Obj(CreatedType(config), created);
      created := created + 1;
      match config.creation
      case CreateFunction(_) =>
        trace := trace + [CreateCalled(o)];
      case InstantiatePrefab(_, parent) =>
        trace := trace + [Instantiated(o, parent)];
        SetActive(o, false);
    }

    method OnTakenFromPool(o: Obj)
      modifies this
      ensures State() == AfterTaken(config, old(State()), o)
    {
      if config.native {
        SetActive(o, true);
      }
      if config.hasTakeCallback {
        trace := trace + [TakeCalled(o)];
      }
    }

    method OnReturnedToPool(o: Obj)
      modifies this
      ensures State() == AfterReturned(config, old(State()), o)
    {
      if config.native {
        SetActive(o, false);
      }
      if config.hasReturnCallback {
        trace := trace + [ReturnCalled(o)];
      }
    }

    method OnDestroyedInPool(o: Obj)
      modifies this
      ensures State() == AfterDestroyed(config, old(State()), o)
    {
      if config.hasDestroyCallback {
        trace := trace + [DestroyCalled(o)];
      }
      if config.native {
        destroyed := destroyed + {o};
        trace := trace + [GameObjectDestroyed(o)];
      }
    }

    method FillPool(n: int)
      modifies this
      ensures State() == AfterFill(config, old(State()), n)
    {
      var i := 0;
      while i < n
        invariant n <= 0 ==> i == 0
        invariant 0 < n ==> 0 <= i <= n
        invariant State() == AfterFill(config, old(State()), i)
      {
        var o := CreateElement();
        pooled := pooled + [o];
        i := i + 1;
      }
    }

    method Get() returns (o: Obj)
      modifies this
      ensures (State(), o) == AfterGet(config, old(State()))
    {
      if |pooled| == 0 {
        o := CreateElement();
      } else {
        o := pooled[0];
        pooled := pooled[1..];
      }
      OnTakenFromPool(o);
      countActive := countActive + 1;
    }

    method Release(o: Obj) returns (r: Result<(), PoolError>)
      modifies this
      ensures match AfterRelease(config, inEditor, old(State()), o)
        case Failure(e) => r == Failure(e) && State() == old(State())
        case Success(s') => r == Success(()) && State() == s'
    {
      if inEditor && config.collectionCheck && o in pooled {
        return Failure(AlreadyInPool);
      }
      if config.maxSize == Unbounded || |pooled| < config.maxSize {
        pooled := pooled + [o];
        OnReturnedToPool(o);
      } else {
        OnDestroyedInPool(o);
      }
      countActive := countActive - 1;
      r := Success(());
    }

    method Clear()
      modifies this
      ensures State() == AfterClear(config, old(State()))
    {
      var count := |pooled|;
      ghost var idle := pooled;
      var i := 0;
      while i < count
        invariant 0 <= i <= count
        invariant pooled == idle[i..]
        invariant trace == old(trace) + DestroyCallbacks(config, idle[..i])
        invariant countActive == old(countActive) && created == old(created)
        invariant active == old(active) && destroyed == old(destroyed)
      {
        var element := pooled[0];
        pooled := pooled[1..];
        if config.hasDestroyCallback {
          trace := trace + [DestroyCalled(element)];
        }
        i := i + 1;
      }
      countActive := 0;
      assert idle[..count] == idle;
    }

    /** Elements handed out and not yet returned (may go negative). */
    function CountActive(): int
      reads this
    {
      countActive
    }

    /** Idle elements waiting in the queue. */
    function CountPooled(): nat
      reads this
    {
      |pooled|
    }

    /** Active plus idle elements. */
    function CountAll(): (n: int)
      reads this
      ensures n == CountActive() + CountPooled()
    {
      TotalCount(State())
    }
  }
}
