/** NativeFactory<T>: a registry of engine-object pools keyed by the runtime type of
    their prefab. Creation and disposal are routed to the pool of the requested type
    (for Create) or of the element's own type (for Dispose). The error log is
    modelled as a list of entries. */
module NativeFactory {
  import opened Wrappers
  import opened ObjectPool
  import NativeObjectPool

  /** The errors the factory logs. */
  datatype LogEntry =
    | InvalidPrefab
    | AlreadyCached(typeName: string)
    | CannotCreate(typeName: string)

  /** One CachePrefab call on a registry: the registry afterwards and what it logs. */
  function CacheOne(m: map<string, Prefab>, prefab: Option<Prefab>): (map<string, Prefab>, seq<LogEntry>) {
    match prefab
    case None => (m, [InvalidPrefab])
    case Some(p) => if p.typeName in m then (m, [AlreadyCached(p.typeName)]) else (m[p.typeName := p], [])
  }

  /** The prefab each registered type gets a pool for, after caching `prefabs` in order. */
  function Registered(prefabs: seq<Option<Prefab>>): map<string, Prefab>
    decreases |prefabs|
  {
    if prefabs == [] then map[]
    else CacheOne(Registered(prefabs[..|prefabs| - 1]), prefabs[|prefabs| - 1]).0
  }

  /** The errors logged while caching `prefabs` in order. */
  function CacheLog(prefabs: seq<Option<Prefab>>): seq<LogEntry>
    decreases |prefabs|
  {
    if prefabs == [] then []
    else
      var init := prefabs[..|prefabs| - 1];
      CacheLog(init) + CacheOne(Registered(init), prefabs[|prefabs| - 1]).1
  }

  /** The first non-null prefab of type `t` in the list, if any. */
  function FirstOfType(prefabs: seq<Option<Prefab>>, t: string): Option<Prefab>
    decreases |prefabs|
  {
    if prefabs == [] then None
    else if prefabs[0].Some? && prefabs[0].value.typeName == t then prefabs[0]
    else FirstOfType(prefabs[1..], t)
  }

  lemma {:induction false} FirstOfTypeAppend(prefabs: seq<Option<Prefab>>, x: Option<Prefab>, t: string)
    ensures FirstOfType(prefabs + [x], t) ==
      if FirstOfType(prefabs, t).Some? then FirstOfType(prefabs, t)
      else if x.Some? && x.value.typeName == t then x
      else None
    decreases |prefabs|
  {
    if prefabs != [] {
      assert (prefabs + [x])[1..] == prefabs[1..] + [x];
      FirstOfTypeAppend(prefabs[1..], x, t);
    }
  }

  /** A type gets a pool iff some non-null prefab has it, and the pool is built from the
      first such prefab: null prefabs and later prefabs of a cached type are skipped. */
  lemma {:induction false} RegisteredIsFirstOfType(prefabs: seq<Option<Prefab>>, t: string)
    ensures t in Registered(prefabs) <==> FirstOfType(prefabs, t).Some?
    ensures t in Registered(prefabs) ==> Registered(prefabs)[t] == FirstOfType(prefabs, t).value
    decreases |prefabs|
  {
    if prefabs != [] {
      var init := prefabs[..|prefabs| - 1];
      var x := prefabs[|prefabs| - 1];
      assert prefabs == init + [x];
      RegisteredIsFirstOfType(init, t);
      FirstOfTypeAppend(init, x, t);
    }
  }

  /** Every prefab is either given a pool or logged, exactly once. */
  lemma {:induction false} EachPrefabRegisteredOrLogged(prefabs: seq<Option<Prefab>>)
    ensures |Registered(prefabs)| + |CacheLog(prefabs)| == |prefabs|
    decreases |prefabs|
  {
    if prefabs != [] {
      EachPrefabRegisteredOrLogged(prefabs[..|prefabs| - 1]);
    }
  }

  /** The exceptions the factory lets through from the .NET runtime. */
  datatype FactoryError =
    | NullReference  // enumerating a null prefab list
    | ArgumentNull   // looking up a null type in the dictionary

  class Factory {
    /** The parent, the pre-fill count and the build flag every pool gets. */
    const parent: Parent
    const initialPool: int
    const inEditor: bool

    var pools: map<string, Pool>
    var log: seq<LogEntry>

    /** The pool of type `t` copies a prefab of type `t` and was built by the
        two-argument constructor with this factory's parent. */
    predicate PoolFor(p: Pool, t: string) {
      && p.config.creation.InstantiatePrefab?
      && p.config.creation.prefab.typeName == t
      && p.config == NativeObjectPool.ShortConfig(p.config.creation.prefab, parent, false, Unbounded)
      && p.inEditor == inEditor
    }

    ghost predicate Valid()
      reads this
    {
      && (forall t :: t in pools ==> PoolFor(pools[t], t))
      && (forall t, u :: t in pools && u in pools && t != u ==> pools[t] != pools[u])
    }

    /** The prefab a registered type's pool copies. */
    function PrefabOf(t: string): Prefab
      reads this
      requires Valid() && t in pools
    {
      pools[t].config.creation.prefab
    }

    /** The constructor on a non-null prefab list: caches each prefab in order. */
    constructor (prefabs: seq<Option<Prefab>>, parent: Parent, initialPool: int, inEditor: bool)
      ensures Valid()
      ensures this.parent == parent && this.initialPool == initialPool && this.inEditor == inEditor
      ensures pools.Keys == Registered(prefabs).Keys
      ensures forall t :: t in pools ==> PrefabOf(t) == Registered(prefabs)[t]
      ensures forall t :: t in pools ==> fresh(pools[t]) && pools[t].State() == AfterFill(pools[t].config, Initial(), initialPool)
      ensures log == CacheLog(prefabs)
    {
      this.parent := parent;
      this.initialPool := initialPool;
      this.inEditor := inEditor;
      pools := map[];
      log := [];
      new;
      var i := 0;
      while i < |prefabs|
        invariant 0 <= i <= |prefabs|
        invariant Valid()
        invariant pools.Keys == Registered(prefabs[..i]).Keys
        invariant forall t :: t in pools ==> PrefabOf(t) == Registered(prefabs[..i])[t]
        invariant forall t :: t in pools ==> fresh(pools[t]) && pools[t].State() == AfterFill(pools[t].config, Initial(), initialPool)
        invariant log == CacheLog(prefabs[..i])
      {
        ghost var m := Registered(prefabs[..i]);
        assert (map t | t in pools :: PrefabOf(t)) == m;
        assert prefabs[..i + 1][..i] == prefabs[..i];
        assert Registered(prefabs[..i + 1]) == CacheOne(m, prefabs[i]).0;
        assert CacheLog(prefabs[..i + 1]) == CacheLog(prefabs[..i]) + CacheOne(m, prefabs[i]).1;
        CachePrefab(prefabs[i], parent, initialPool);
        i := i + 1;
      }
      assert prefabs[..|prefabs|] == prefabs;
    }

    /** `new NativeFactory<T>(prefabs, parent, initialPool)`, where the prefab list may
        be null: enumerating a null list throws before anything is cached. */
    static method New(prefabs: Option<seq<Option<Prefab>>>, parent: Parent, initialPool: int, inEditor: bool)
      returns (r: Result<Factory, FactoryError>)
      ensures prefabs.None? ==> r == Failure(NullReference)
      ensures prefabs.Some? ==>
        && r.Success? && fresh(r.value) && r.value.Valid()
        && r.value.pools.Keys == Registered(prefabs.value).Keys
        && (forall t :: t in r.value.pools ==> r.value.PrefabOf(t) == Registered(prefabs.value)[t])
        && r.value.log == CacheLog(prefabs.value)
        && r.value.parent == parent && r.value.initialPool == initialPool && r.value.inEditor == inEditor
        && (forall t :: t in r.value.pools ==>
              fresh(r.value.pools[t]) && r.value.pools[t].State() == AfterFill(r.value.pools[t].config, Initial(), initialPool))
    {
      if prefabs.None? {
        return Failure(NullReference);
      }
      var f := new Factory(prefabs.value, parent, initialPool, inEditor);
      r := Success(f);
    }

    /** Registers one prefab: a null prefab and a prefab of an already cached type are
        logged and skipped; otherwise a new pool is registered and pre-filled. The
        parent and the pre-fill count are tied to the factory's own, which is how the
        constructor calls it; a subclass caching with other arguments is not modelled. */
    method CachePrefab(prefab: Option<Prefab>, parent: Parent, initialPool: int)
      requires Valid() && parent == this.parent && initialPool == this.initialPool
      modifies this
      ensures Valid()
      ensures var (m, entries) := CacheOne(map t | t in old(pools) :: old(PrefabOf(t)), prefab);
        && pools.Keys == m.Keys
        && (forall t :: t in pools ==> PrefabOf(t) == m[t])
        && log == old(log) + entries
      ensures forall t :: t in old(pools) ==> pools[t] == old(pools[t])
      ensures forall t :: t in pools && t !in old(pools) ==>
        fresh(pools[t]) && pools[t].State() == AfterFill(pools[t].config, Initial(), initialPool)
    {
      if prefab.None? {
        log := log + [InvalidPrefab];
        return;
      }
      var p := prefab.value;
      if p.typeName in pools {
        log := log + [AlreadyCached(p.typeName)];
        return;
      }
      var pool := new Pool(NativeObjectPool.ShortConfig(p, parent, false, Unbounded), inEditor);
      pools := pools[p.typeName := pool];
      pool.FillPool(initialPool);
    }

    /** Create(type): the pool's Get for a registered type; otherwise an error is logged
        and null is returned. A null type throws from the dictionary lookup. */
    method Create(t: Option<string>) returns (r: Result<Option<Obj>, FactoryError>)
      requires Valid()
      modifies this, if t.Some? && t.value in pools then {pools[t.value]} else {}
      ensures Valid() && pools == old(pools)
      ensures t.None? ==> r == Failure(ArgumentNull) && log == old(log)
      ensures t.Some? && t.value in pools ==>
        var (s', o) := AfterGet(pools[t.value].config, old(pools[t.value].State()));
        r == Success(Some(o)) && pools[t.value].State() == s' && log == old(log)
      ensures t.Some? && t.value !in pools ==>
        r == Success(None) && log == old(log) + [CannotCreate(t.value)]
    {
      if t.None? {
        return Failure(ArgumentNull);
      }
      var name := t.value;
      if name in pools {
        var o := pools[name].Get();
        r := Success(Some(o));
      } else {
        log := log + [CannotCreate(name)];
        r := Success(None);
      }
    }

    /** Create<TRef>(): Create with the referenced type, which is never null. */
    method CreateOf(reference: string) returns (r: Option<Obj>)
      requires Valid()
      modifies this, if reference in pools then {pools[reference]} else {}
      ensures Valid() && pools == old(pools)
      ensures reference in pools ==>
        var (s', o) := AfterGet(pools[reference].config, old(pools[reference].State()));
        r == Some(o) && pools[reference].State() == s' && log == old(log)
      ensures reference !in pools ==> r == None && log == old(log) + [CannotCreate(reference)]
    {
      var outcome := Create(Some(reference));
      r := outcome.value;
    }

    /** Dispose: a null target and a target whose game object the engine has destroyed
        (by its pool, or by game code: `destroyedByGame`) are ignored; otherwise the
        target is released into the pool of its own runtime type, and silently ignored
        when there is none. */
    method Dispose(target: Option<Obj>, destroyedByGame: set<Obj>)
      requires Valid()
      modifies if target.Some? && target.value.typeName in pools then {pools[target.value.typeName]} else {}
      ensures target.Some? && target.value.typeName in pools ==>
        var (o, p) := (target.value, pools[target.value.typeName]);
        if o in destroyedByGame || o in old(p.destroyed) then p.State() == old(p.State())
        else AfterRelease(p.config, p.inEditor, old(p.State()), o) == Success(p.State())
    {
      if target.None? {
        return;
      }
      var o := target.value;
      if o in destroyedByGame {
        return;
      }
      if o.typeName in pools && o !in pools[o.typeName].destroyed {
        var outcome := pools[o.typeName].Release(o);
      }
    }
  }
}
