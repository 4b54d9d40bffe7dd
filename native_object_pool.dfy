/** NativeObjectPool<T>: the pool of engine objects. Its overrides (prefab copy in
    CreateElement, the active flag in the take and return hooks, the game object
    destroyed on overflow) are the `native` branches of the functions in module
    ObjectPool; this module holds its two constructors and what the overrides
    guarantee together. */
module NativeObjectPool {
  import opened Wrappers
  import opened ObjectPool

  /** The extended constructor: a custom creation function is used exactly when one is
      given, otherwise the prefab is copied under the parent. `defaultCapacity` is
      accepted and never used. */
  function FullConfig(prefab: Prefab, parent: Parent, createFunc: Option<string>,
                      hasGetCallback: bool, hasReleaseCallback: bool, hasDestroyCallback: bool,
                      collectionCheck: bool, defaultCapacity: int, maxSize: int): (c: Config)
    ensures c.native && WellFormed(c)
    ensures c.creation.CreateFunction? <==> createFunc.Some?
    ensures createFunc.Some? ==> CreatedType(c) == createFunc.value
    ensures createFunc.None? ==> c.creation == InstantiatePrefab(prefab, parent)
    ensures c.hasTakeCallback == hasGetCallback && c.hasReturnCallback == hasReleaseCallback
    ensures c.hasDestroyCallback == hasDestroyCallback
    ensures c.collectionCheck == collectionCheck && c.maxSize == maxSize
  {
    var creation := match createFunc
      case Some(t) => CreateFunction(t)
      case None => InstantiatePrefab(prefab, parent);
    Config(true, creation, hasGetCallback, hasReleaseCallback, hasDestroyCallback, collectionCheck, maxSize)
  }

  /** The short constructor as written: it forwards its `maxSize` positionally into the
      `defaultCapacity` slot, so the pool always ends up unbounded. */
  function ShortConfig(prefab: Prefab, parent: Parent, collectionCheck: bool, maxSize: int): (c: Config)
    ensures c.native && c.maxSize == Unbounded
    ensures c.creation == InstantiatePrefab(prefab, parent)
    ensures !c.hasTakeCallback && !c.hasReturnCallback && !c.hasDestroyCallback
    ensures c.collectionCheck == collectionCheck
  {
    FullConfig(prefab, parent, None, false, false, false, collectionCheck, maxSize, Unbounded)
  }

  /** The short constructor as its documentation describes it: `maxSize` bounds the pool. */
  function IntendedShortConfig(prefab: Prefab, parent: Parent, collectionCheck: bool, maxSize: int): (c: Config)
    ensures c.native && c.maxSize == maxSize
    ensures c.creation == InstantiatePrefab(prefab, parent)
    ensures !c.hasTakeCallback && !c.hasReturnCallback && !c.hasDestroyCallback
    ensures c.collectionCheck == collectionCheck
  {
    FullConfig(prefab, parent, None, false, false, false, collectionCheck, 10, maxSize)
  }

  /** A short-constructed pool asked to hold at most one element keeps a second
      released element instead of destroying it. */
  lemma ShortConfigIgnoresMaxSize()
    ensures var c := ShortConfig(Prefab("Bullet", 0), NoParent, false, 1);
      var s := AfterRelease(c, false, Initial(), Obj("Bullet", 1)).value;
      c.maxSize != 1 && |AfterRelease(c, false, s, Obj("Bullet", 2)).value.pooled| == 2
  {
  }

  /** With the intended constructor the same second release is destroyed. */
  lemma IntendedShortConfigBoundsPool(prefab: Prefab, parent: Parent, collectionCheck: bool, maxSize: int, inEditor: bool, s: PoolState, o: Obj)
    requires 0 <= maxSize && |s.pooled| <= maxSize
    ensures var c := IntendedShortConfig(prefab, parent, collectionCheck, maxSize);
      AfterRelease(c, inEditor, s, o).Success? ==> |AfterRelease(c, inEditor, s, o).value.pooled| <= maxSize
  {
    ReleaseRespectsBound(IntendedShortConfig(prefab, parent, collectionCheck, maxSize), inEditor, s, o);
  }

  /** With its default (unbounded) maximum size, the short constructor as written and as
      intended build the same pool. */
  lemma ShortConfigsAgreeWhenUnbounded(prefab: Prefab, parent: Parent, collectionCheck: bool)
    ensures ShortConfig(prefab, parent, collectionCheck, Unbounded) == IntendedShortConfig(prefab, parent, collectionCheck, Unbounded)
  {
  }

  /** Prefab creation copies the prefab under the parent and deactivates the copy. */
  lemma PrefabCopiesStartInactive(c: Config, s: PoolState)
    requires c.native && c.creation.InstantiatePrefab?
    ensures var (s', o) := AfterCreate(c, s);
      && o.typeName == c.creation.prefab.typeName
      && s'.trace == s.trace + [Instantiated(o, c.creation.parent), ActiveSet(o, false)]
      && o in s'.active && !s'.active[o]
  {
  }

  /** Get activates the element before the user's take callback runs on it. */
  lemma GetActivatesBeforeTakeCallback(c: Config, s: PoolState)
    requires c.native
    ensures var (s', o) := AfterGet(c, s);
      var tail := [ActiveSet(o, true)] + (if c.hasTakeCallback then [TakeCalled(o)] else []);
      && |tail| <= |s'.trace|
      && s'.trace[|s'.trace| - |tail|..] == tail
      && o in s'.active && s'.active[o]
  {
  }

  /** A kept element is deactivated before the user's return callback runs; an
      overflowing one has its game object destroyed after the user's destroy callback. */
  lemma ReleaseDeactivatesOrDestroys(c: Config, inEditor: bool, s: PoolState, o: Obj)
    requires c.native && AfterRelease(c, inEditor, s, o).Success?
    ensures var s' := AfterRelease(c, inEditor, s, o).value;
      && (HasRoom(c, s) ==> o in s'.active && !s'.active[o] && s'.destroyed == s.destroyed)
      && (!HasRoom(c, s) ==>
            o in s'.destroyed && s'.active == s.active && s'.trace[|s'.trace| - 1] == GameObjectDestroyed(o))
  {
  }

  /** Clear goes through the raw destroy callback only: the game objects of the
      cleared elements are not destroyed. */
  lemma ClearKeepsGameObjects(c: Config, s: PoolState)
    requires c.native
    ensures var s' := AfterClear(c, s);
      s'.destroyed == s.destroyed
      && forall k :: |s.trace| <= k < |s'.trace| ==> !s'.trace[k].GameObjectDestroyed?
  {
  }

  // ---------------------------------------------------------------------------
  // The active-flag discipline of a prefab pool

  /** Every idle element is a known engine object that is inactive. */
  ghost predicate QueuedInactive(s: PoolState) {
    forall i :: 0 <= i < |s.pooled| ==> s.pooled[i] in s.active && !s.active[s.pooled[i]]
  }

  /** No element is queued twice. */
  ghost predicate Distinct(xs: seq<Obj>) {
    forall i, j :: 0 <= i < j < |xs| ==> xs[i] != xs[j]
  }

  /** Prefab pre-filling only adds inactive copies. */
  lemma {:induction false} FillKeepsQueuedInactive(c: Config, s: PoolState, n: int)
    requires c.native && c.creation.InstantiatePrefab? && QueuedInactive(s)
    ensures QueuedInactive(AfterFill(c, s, n))
    decreases n
  {
    if n > 0 {
      var prev := AfterFill(c, s, n - 1);
      FillKeepsQueuedInactive(c, s, n - 1);
      var (s1, o) := AfterCreate(c, prev);
      assert AfterFill(c, s, n) == s1.(pooled := prev.pooled + [o]);
      assert s1.active == prev.active[o := false];
    }
  }

  /** Pre-filling creates distinct elements, none of them created before. */
  lemma FillCreatesDistinct(c: Config, s: PoolState, n: int)
    requires Distinct(s.pooled)
    requires forall i :: 0 <= i < |s.pooled| ==> s.pooled[i].serial < s.created
    ensures Distinct(AfterFill(c, s, n).pooled)
  {
    FillAppendsNewElements(c, s, n);
    var s' := AfterFill(c, s, n);
    forall i, j | 0 <= i < j < |s'.pooled| ensures s'.pooled[i] != s'.pooled[j] {
      if j >= |s.pooled| && i < |s.pooled| {
        assert s'.pooled[i] == s.pooled[i];
      }
    }
  }

  /** The calls a client makes on a pool. A release that throws is caught and leaves
      the pool as it was. */
  datatype PoolCall = GetCall | ReleaseCall(o: Obj) | ClearCall

  function Step(c: Config, inEditor: bool, s: PoolState, call: PoolCall): PoolState {
    match call
    case GetCall => AfterGet(c, s).0
    case ReleaseCall(o) => (match AfterRelease(c, inEditor, s, o) case Success(s') => s' case Failure(_) => s)
    case ClearCall => AfterClear(c, s)
  }

  function Run(c: Config, inEditor: bool, s: PoolState, calls: seq<PoolCall>): PoolState
    decreases |calls|
  {
    if calls == [] then s else Run(c, inEditor, Step(c, inEditor, s, calls[0]), calls[1..])
  }

  /** One call keeps a duplicate-free queue of inactive elements, provided the
      collection check runs. */
  lemma StepKeepsDiscipline(c: Config, s: PoolState, call: PoolCall)
    requires c.native && c.creation.InstantiatePrefab? && c.collectionCheck
    requires QueuedInactive(s) && Distinct(s.pooled)
    ensures var s' := Step(c, true, s, call); QueuedInactive(s') && Distinct(s'.pooled)
  {
    match call
    case GetCall =>
      var (s', o) := AfterGet(c, s);
      if s.pooled != [] {
        assert s'.pooled == s.pooled[1..];
        assert forall i :: 0 <= i < |s'.pooled| ==> s'.pooled[i] == s.pooled[i + 1] && s.pooled[i + 1] != s.pooled[0];
      }
    case ReleaseCall(o) =>
    case ClearCall =>
  }

  /** In the editor with collection checks on, a prefab pool driven by any sequence of
      Get, Release and Clear keeps every idle element inactive. */
  lemma {:induction false} RunKeepsQueuedInactive(c: Config, s: PoolState, calls: seq<PoolCall>)
    requires c.native && c.creation.InstantiatePrefab? && c.collectionCheck
    requires QueuedInactive(s) && Distinct(s.pooled)
    ensures var s' := Run(c, true, s, calls); QueuedInactive(s') && Distinct(s'.pooled)
    decreases |calls|
  {
    if calls != [] {
      StepKeepsDiscipline(c, s, calls[0]);
      RunKeepsQueuedInactive(c, Step(c, true, s, calls[0]), calls[1..]);
    }
  }

  /** A call sequence that never clears the pool. */
  predicate NoClear(calls: seq<PoolCall>) {
    forall k :: 0 <= k < |calls| ==> !calls[k].ClearCall?
  }

  /** An unbounded pool driven by any run of Get and Release (no Clear) keeps CountAll
      equal to the number of elements it has created, from a fresh pool on. */
  lemma {:induction false} UnboundedRunAccountsForCreations(c: Config, inEditor: bool, s: PoolState, calls: seq<PoolCall>)
    requires c.maxSize == Unbounded && TotalCount(s) == s.created && NoClear(calls)
    ensures var s' := Run(c, inEditor, s, calls); TotalCount(s') == s'.created
    decreases |calls|
  {
    if calls != [] {
      var o := if calls[0].ReleaseCall? then calls[0].o else Obj("", 0);
      UnboundedPoolAccountsForCreations(c, inEditor, s, o, 0);
      assert NoClear(calls[1..]) by {
        forall k | 0 <= k < |calls[1..]| ensures !calls[1..][k].ClearCall? {
          assert calls[1..][k] == calls[k + 1];
        }
      }
      UnboundedRunAccountsForCreations(c, inEditor, Step(c, inEditor, s, calls[0]), calls[1..]);
    }
  }

  /** Without the collection check a double release breaks the discipline: the element
      is queued twice, and once handed out, its second queue entry is active. */
  lemma DoubleReleaseLeavesActiveEntry()
    ensures var c := ShortConfig(Prefab("Bullet", 0), NoParent, false, Unbounded);
      var s := Run(c, false, Initial(), [GetCall, ReleaseCall(Obj("Bullet", 0)), ReleaseCall(Obj("Bullet", 0)), GetCall]);
      !QueuedInactive(s)
  {
    var c := ShortConfig(Prefab("Bullet", 0), NoParent, false, Unbounded);
    var s := Run(c, false, Initial(), [GetCall, ReleaseCall(Obj("Bullet", 0)), ReleaseCall(Obj("Bullet", 0)), GetCall]);
    assert s.pooled == [Obj("Bullet", 0)];
    assert s.active[Obj("Bullet", 0)];
  }
}
