# Unity-Common core, modelled in Dafny

This project models the core of the BroWar-Collective Unity-Common package:

- **`ObjectPool<T>`**: a FIFO queue of idle elements with an active counter. Release has an overflow policy set by `maxSize`, where -1 means unbounded. There is also an editor-only duplicate-release check.
- **`NativeObjectPool<T>`**: the pool of engine objects. It adds prefab copies, the active flag and destruction of the game object.
- **`NativeFactory<T>`**: a registry of native pools keyed by the runtime type of their prefab.
- **The state framework**:
  - `BaseState`: a destination list, with the most recent append first and null meaning "reset".
  - `NoneState`: the state whose type is null.
  - `BaseStateMachine<T>`: a registry keyed by type, a current state, and the destination walk done by `Tick`.
- **`ManagerBase`**: the initialise/deinitialise life cycle of a manager component.
- **`RunCoroutineWithoutYields`**: drains nested enumerators depth first within a step budget.
- **`ListExtensions.CopyFrom`**: capacity doubling with 32-bit wrap-around, then a copy of size and items. Also `IsNullOrEmpty`.
- **`ReflectionUtility`**: C# aliases for CLR type names, and the rich-text method signature.

Classes whose fields the C# code updates in place are Dafny classes: `ObjectPool.Pool`, `NativeFactory.Factory`, `States.State`, `StateMachine.Machine`, `Managers.Manager` and `ListExtensions.NativeList`.

Each such class is specified against a value snapshot. Every method ensures that its new state is a pure function of the old one:

- `Pool.Get` ensures `(State(), o) == AfterGet(config, old(State()))`.
- `Machine.Tick` ensures `Value() == TickOf(old(Value()))`.

The properties the code promises are proved as lemmas about those functions.

User callbacks, overridable hooks, engine calls, events and log messages are opaque. Each one is recorded as an event appended to a trace, so their order can be stated. The guards `WantsToBegin`/`WantsToClose` are boolean fields of a state that game code sets. Exceptions are `Failure` values of a `Result`, and null references are `Option`/`NullType`.

A `System.Type` in the state framework is a `TypeTag`, which is either `NullType` or a namespace and a short name. Two types are equal only when both parts agree, and `Type.Name` is the short name alone.

The C# conditional compilation `UNITY_EDITOR` is the pool's constant `inEditor`.

Notable behaviours of the code, which the model keeps:

- The state machine has no "ongoing" state.
- A transition to the current state is not suppressed.
- The destination walk does not stop after a successful change, so the last eligible destination wins.
- `Start` never consults `WantsToBegin`.
- `ObjectPool.Clear` sets the active counter to 0 even when elements are still checked out.

## Model

| member | source | states |
|---|---|---|
| ObjectPool.GetIsFifo | Assets/Package/Runtime/Patterns/ObjectPool.cs:77-84 | Get returns the oldest idle element and drops it from the front, or creates a new one when the queue is empty; the active count rises by exactly one |
| ObjectPool.GetEndsWithTakeCallback | Assets/Package/Runtime/Patterns/ObjectPool.cs:81-83 | the take callback is the last call Get makes, on the element it returns |
| ObjectPool.GetCountAll | Assets/Package/Runtime/Patterns/ObjectPool.cs:139-144 | CountAll grows through Get only when Get had to create an element |
| ObjectPool.ReleaseFailsOnlyOnDuplicate | Assets/Package/Runtime/Patterns/ObjectPool.cs:93-97 | Release throws iff it runs in the editor with collection checks on and the element is already queued |
| ObjectPool.ReleasePolicy | Assets/Package/Runtime/Patterns/ObjectPool.cs:100-110 | with room (maxSize -1 or queue below maxSize) Release enqueues at the back and runs only the return hook; otherwise it runs only the destroy hook and leaves the queue unchanged; the active count drops by one either way |
| ObjectPool.ReleaseRespectsBound | Assets/Package/Runtime/Patterns/ObjectPool.cs:100-104 | Release never grows the queue past a non-negative maxSize |
| ObjectPool.DegenerateBoundAlwaysDestroys | Assets/Package/Runtime/Patterns/ObjectPool.cs:100-108 | maxSize 0, or any value below -1, makes every release a destroy |
| ObjectPool.ReleaseCountAll | Assets/Package/Runtime/Patterns/ObjectPool.cs:100-110 | CountAll stays the same when the element is kept and drops by one when it is destroyed |
| ObjectPool.GetThenReleaseCycles | Assets/Package/Runtime/Patterns/ObjectPool.cs:77-111 | in an unbounded pool, taking an idle element and releasing it restores the active count and moves the element to the back of the queue |
| ObjectPool.FillAppendsNewElements | Assets/Package/Runtime/Patterns/ObjectPool.cs:64-71 | FillPool(n) appends exactly max(n,0) newly created elements after the existing ones; it calls no take, return or destroy hook, ignores maxSize and leaves the active count alone |
| ObjectPool.ClearDestroysEachIdleElement | Assets/Package/Runtime/Patterns/ObjectPool.cs:116-126 | Clear runs the raw destroy callback once per idle element, oldest first; it empties the queue, sets the active count to 0 and destroys no game object |
| ObjectPool.Pool.constructor | Assets/Package/Runtime/Patterns/ObjectPool.cs:29-42 | a new pool has an empty queue, active count 0 and the given configuration |
| ObjectPool.Pool.CreateElement | Assets/Package/Runtime/Patterns/ObjectPool.cs:44-47 | the new state and element are those of AfterCreate: the creation function, or for native pools a prefab copy that is then deactivated |
| ObjectPool.Pool.OnTakenFromPool | Assets/Package/Runtime/Patterns/ObjectPool.cs:49-52 | the new state is AfterTaken of the old: native activation, then the take callback if one was given |
| ObjectPool.Pool.OnReturnedToPool | Assets/Package/Runtime/Patterns/ObjectPool.cs:54-57 | the new state is AfterReturned of the old: native deactivation, then the return callback if one was given |
| ObjectPool.Pool.OnDestroyedInPool | Assets/Package/Runtime/Patterns/ObjectPool.cs:59-62 | the new state is AfterDestroyed of the old: the destroy callback if one was given, then for native pools the destruction of the game object |
| ObjectPool.Pool.FillPool | Assets/Package/Runtime/Patterns/ObjectPool.cs:64-71 | the counting loop leaves the pool in state AfterFill(config, old state, n) |
| ObjectPool.Pool.Get | Assets/Package/Runtime/Patterns/ObjectPool.cs:77-84 | the new state and the returned element are AfterGet of the old state |
| ObjectPool.Pool.Release | Assets/Package/Runtime/Patterns/ObjectPool.cs:91-111 | when the duplicate check throws, the pool is unchanged; otherwise the new state is AfterRelease of the old |
| ObjectPool.Pool.Clear | Assets/Package/Runtime/Patterns/ObjectPool.cs:116-126 | the dequeue loop leaves the pool in state AfterClear of the old state |
| ObjectPool.UnboundedPoolAccountsForCreations | Assets/Package/Runtime/Patterns/ObjectPool.cs:139-144 | in an unbounded pool whose CountAll equals the number of elements created, Get, Release and FillPool keep it so |
| ObjectPool.ReleaseOfUntakenGoesNegative | Assets/Package/Runtime/Patterns/ObjectPool.cs:131-134 | CountActive counts releases against takes, not elements: releasing a never-taken element into a fresh pool makes it -1 |
| NativeObjectPool.FullConfig | Assets/Package/Runtime/Patterns/NativeObjectPool.cs:35-40 | custom creation is used iff a creation function is given, otherwise prefab copies under the parent; callbacks, collection check and maxSize pass through |
| NativeObjectPool.ShortConfig | Assets/Package/Runtime/Patterns/NativeObjectPool.cs:21-22 | as written, the short constructor builds a prefab pool with no callbacks whose maxSize is always -1 |
| NativeObjectPool.IntendedShortConfig | Assets/Package/Runtime/Patterns/NativeObjectPool.cs:21-22 | corrected: the short constructor's maxSize becomes the pool's bound |
| NativeObjectPool.ShortConfigIgnoresMaxSize | Assets/Package/Runtime/Patterns/NativeObjectPool.cs:21-22 | a short-constructed pool with maxSize 1 keeps a second released element |
| NativeObjectPool.IntendedShortConfigBoundsPool | Assets/Package/Runtime/Patterns/NativeObjectPool.cs:21-22 | with the corrected constructor, Release never grows the queue past maxSize |
| NativeObjectPool.ShortConfigsAgreeWhenUnbounded | Assets/Package/Runtime/Patterns/NativeObjectPool.cs:21-22 | with the default maxSize -1, the constructor as written and as corrected build the same pool |
| NativeObjectPool.PrefabCopiesStartInactive | Assets/Package/Runtime/Patterns/NativeObjectPool.cs:42-52 | a prefab copy is instantiated under the parent and then deactivated, in that order |
| NativeObjectPool.GetActivatesBeforeTakeCallback | Assets/Package/Runtime/Patterns/NativeObjectPool.cs:66-70 | Get sets the element active before the user take callback runs, and the element ends active |
| NativeObjectPool.ReleaseDeactivatesOrDestroys | Assets/Package/Runtime/Patterns/NativeObjectPool.cs:54-64 | a kept element is made inactive; an overflowing one has its game object destroyed after the user destroy callback |
| NativeObjectPool.ClearKeepsGameObjects | Assets/Package/Runtime/Patterns/NativeObjectPool.cs:54-58 | the inherited Clear bypasses the override, so no cleared game object is destroyed |
| NativeObjectPool.FillKeepsQueuedInactive | Assets/Package/Runtime/Patterns/NativeObjectPool.cs:42-52 | pre-filling a prefab pool only queues inactive copies |
| NativeObjectPool.FillCreatesDistinct | Assets/Package/Runtime/Patterns/ObjectPool.cs:64-71 | pre-filling adds distinct elements, none created before |
| NativeObjectPool.StepKeepsDiscipline | Assets/Package/Runtime/Patterns/NativeObjectPool.cs:60-70 | with collection checks in the editor, each Get, Release or Clear keeps the queue free of duplicates, with every queued element inactive |
| NativeObjectPool.RunKeepsQueuedInactive | Assets/Package/Runtime/Patterns/NativeObjectPool.cs:60-70 | the same holds for any sequence of Get, Release and Clear calls |
| NativeObjectPool.UnboundedRunAccountsForCreations | Assets/Package/Runtime/Patterns/ObjectPool.cs:77-144 | any run of Get and Release calls without Clear on an unbounded pool keeps CountAll equal to the number of elements created |
| NativeObjectPool.DoubleReleaseLeavesActiveEntry | Assets/Package/Runtime/Patterns/ObjectPool.cs:91-111 | without the collection check, a double release queues an element twice, and after the next Get the queue holds an active element |
| NativeFactory.RegisteredIsFirstOfType | Runtime/Factories/NativeFactory.cs:25-38 | a type gets a pool iff some non-null prefab has that type, and its pool copies the first such prefab; null prefabs and later duplicates are skipped |
| NativeFactory.EachPrefabRegisteredOrLogged | Runtime/Factories/NativeFactory.cs:25-38 | each prefab is either registered or logged, exactly once |
| NativeFactory.Factory.New | Runtime/Factories/NativeFactory.cs:17-23 | a null prefab list throws a null reference; otherwise a fresh factory with the given parent, pre-fill count and build flag, one fresh pool per type copying its first prefab and pre-filled with initialPool elements, and the skip log |
| NativeFactory.Factory.constructor | Runtime/Factories/NativeFactory.cs:19-22 | on a non-null list, every type of the prefab list has one fresh pool copying its first prefab; each pool is pre-filled with initialPool elements; the log holds one error per skipped prefab |
| NativeFactory.Factory.CachePrefab | Runtime/Factories/NativeFactory.cs:25-43 | a null prefab or an already cached type is logged and changes no pool; otherwise a new pre-filled pool is registered under the prefab's type |
| NativeFactory.Factory.Create | Runtime/Factories/NativeFactory.cs:52-61 | a null type throws and changes nothing; a registered type returns that pool's Get, with the pool's new state; an unregistered type logs, returns null and changes no pool |
| NativeFactory.Factory.CreateOf | Runtime/Factories/NativeFactory.cs:46-49 | Create<TRef>() behaves exactly as Create(typeof(TRef)) |
| NativeFactory.Factory.Dispose | Runtime/Factories/NativeFactory.cs:64-76 | a live target is released into the pool of its own runtime type; a null target, a target destroyed by its pool or by game code, or an unknown type is ignored without a log |
| States.RemoveFirstCutsFirstOccurrence | Assets/Package/Runtime/States/BaseState.cs:38-41 | removing a destination cuts out exactly its first (most recently appended) occurrence, and an absent one leaves the list unchanged |
| States.RemoveFirstMultiset | Assets/Package/Runtime/States/BaseState.cs:38-41 | removing takes away exactly one copy of the destination, none when it is absent |
| States.State.constructor | Assets/Package/Runtime/States/BaseState.cs:59-85 | a new state has no destinations, and both guards are true by default |
| States.State.None | Assets/Package/Runtime/States/NoneState.cs:11-15 | the none state's Type is null |
| States.State.AppendDestination | Assets/Package/Runtime/States/BaseState.cs:22-25 | the type goes in at index 0 with no deduplication; null is allowed and is the reset marker |
| States.State.AppendDestinationOf | Assets/Package/Runtime/States/BaseState.cs:13-16 | as written, the generic form inserts typeof(T) at the head, even for NoneState |
| States.State.AppendDestinationOfIntended | Assets/Package/Runtime/States/BaseState.cs:13-16 | corrected: the generic form for NoneState inserts the reset marker |
| States.State.RemoveDestination | Assets/Package/Runtime/States/BaseState.cs:38-41 | the list loses its first occurrence of the type |
| States.State.RemoveDestinationOf | Assets/Package/Runtime/States/BaseState.cs:30-33 | the generic form removes typeof(T) |
| States.State.ClearDestinations | Assets/Package/Runtime/States/BaseState.cs:46-49 | the destination list becomes empty |
| StateMachine.Lookup | Assets/Package/Runtime/States/BaseStateMachine.cs:154-158 | a found state is registered under the asked type, and nothing is found iff no registered state has that type |
| StateMachine.LookupFindsRegistered | Assets/Package/Runtime/States/BaseStateMachine.cs:154-158 | each registered state is found by its own type |
| StateMachine.LookupAppend | Assets/Package/Runtime/States/BaseStateMachine.cs:110 | after adding a state, lookups of other types are unchanged and its own type finds it |
| StateMachine.WithoutDropsType | Assets/Package/Runtime/States/BaseStateMachine.cs:121 | removal by type keeps a valid registry, unregisters that type and no other |
| StateMachine.AppendRegisters | Assets/Package/Runtime/States/BaseStateMachine.cs:96-117 | AppendState throws exactly for a null state or a null Type; otherwise it adds the state iff its type is new and returns whether it did; a duplicate leaves the registry and the current state unchanged; with setAsCurrent a newly added state becomes current |
| StateMachine.RemoveUnregisters | Assets/Package/Runtime/States/BaseStateMachine.cs:119-128 | RemoveState throws for a null state or a null Type; otherwise it returns whether the type was registered, unregisters exactly that type, and resets only when the removed instance was current |
| StateMachine.RemoveThroughOtherInstanceKeepsCurrent | Assets/Package/Runtime/States/BaseStateMachine.cs:121-125 | removing through another instance of the current state's type unregisters the type but keeps the current state |
| StateMachine.RegisterAllRegistersEach | Assets/Package/Runtime/States/BaseStateMachine.cs:19-29 | the constructor throws iff the list holds a null state or a null Type; otherwise each listed type is registered to its first listed state, and nothing is current |
| StateMachine.StartBeginsStartState | Assets/Package/Runtime/States/BaseStateMachine.cs:34-45 | Start fails iff a declared start type is unregistered; otherwise it begins that state, or the first registered one when none is declared, whatever WantsToBegin says |
| StateMachine.SelfTransitionRestarts | Assets/Package/Runtime/States/BaseStateMachine.cs:135-147 | changing to the current state closes it, begins it again and raises OnStateChanged |
| StateMachine.ChangeToUnregisteredIsNoop | Assets/Package/Runtime/States/BaseStateMachine.cs:137-140 | ChangeState to an unregistered type returns false and changes nothing, with no hook and no event |
| StateMachine.ChangeToNotifiesOnce | Assets/Package/Runtime/States/BaseStateMachine.cs:142-145 | a successful change raises OnStateChanged exactly once |
| StateMachine.WalkLastEligibleWins | Assets/Package/Runtime/States/BaseStateMachine.cs:63-84 | without a reset marker, the walk keeps the registry and ends in the last registered destination that wants to begin (or where it started); it raises one notification per such destination |
| StateMachine.WalkStopsAtFirstNull | Assets/Package/Runtime/States/BaseStateMachine.cs:66-71 | the first null destination resets the machine and the rest of the list is never looked at |
| StateMachine.TickWaitsForClose | Assets/Package/Runtime/States/BaseStateMachine.cs:50-61 | Tick with no current state does nothing; a state that does not want to close is only ticked |
| StateMachine.RepresentsIffRegisteredUnder | Assets/Package/Runtime/States/BaseState.cs:87-90 | a registered state is the one the registry finds under a type iff it represents that type |
| StateMachine.ConversionIsRegistryKey | Assets/Package/Runtime/States/BaseState.cs:102 | the implicit conversion of a registered state gives the key the registry finds it under |
| StateMachine.SameNameMeansOtherNamespace | Assets/Package/Runtime/States/BaseState.cs:92-95 | ToString gives the type's short name, so two registered states with the same ToString must be of classes in different namespaces |
| StateMachine.ShortNamesMayCollide | Assets/Package/Runtime/States/BaseState.cs:92-95 | ToString does not identify a state: AppendState accepts states of Game.Idle and Ui.Idle alike, and both print "Idle" |
| StateMachine.ChangeStateActivates | Assets/Package/Runtime/States/BaseStateMachine.cs:160-163 | after ChangeState(t), IsStateActive(s) holds iff s is the state registered under t; for an unregistered t, iff it held before |
| StateMachine.PopulatedIffSomeTypeRegistered | Assets/Package/Runtime/States/BaseStateMachine.cs:170 | HasStates holds iff some type is registered |
| StateMachine.StartWorksIffPopulated | Assets/Package/Runtime/States/BaseStateMachine.cs:174 | a successful Start of an idle machine leaves it working iff it has states; Reset leaves it not working |
| StateMachine.Machine.Empty | Assets/Package/Runtime/States/BaseStateMachine.cs:19-23 | a machine with an empty registry and no current state |
| StateMachine.Machine.New | Assets/Package/Runtime/States/BaseStateMachine.cs:19-29 | a null list gives an empty machine; otherwise the machine is the result of AppendState over the list, or the first exception |
| StateMachine.Machine.Start | Assets/Package/Runtime/States/BaseStateMachine.cs:34-45 | the new state is StartOf of the old, and a failure changes nothing |
| StateMachine.Machine.Tick | Assets/Package/Runtime/States/BaseStateMachine.cs:50-85 | the indexed loop leaves the machine in TickOf of the old state, and the registry unchanged |
| StateMachine.Machine.Reset | Assets/Package/Runtime/States/BaseStateMachine.cs:90-94 | the current state, if any, is closed and cleared; the registry is untouched |
| StateMachine.Machine.AppendState | Assets/Package/Runtime/States/BaseStateMachine.cs:96-117 | the result and the new state are those of AppendOf, and the registry stays valid |
| StateMachine.Machine.RemoveState | Assets/Package/Runtime/States/BaseStateMachine.cs:119-128 | the result and the new state are those of RemoveOf, and the registry stays valid |
| StateMachine.Machine.ChangeStateTo | Assets/Package/Runtime/States/BaseStateMachine.cs:130-133 | ChangeState(T) is ChangeState of the state's Type; a null state throws |
| StateMachine.Machine.ChangeState | Assets/Package/Runtime/States/BaseStateMachine.cs:135-147 | the result and the new state are those of ChangeStateOf: close the old state, set the new one, begin it, notify |
| StateMachine.Machine.ContainsState | Assets/Package/Runtime/States/BaseStateMachine.cs:149-152 | a null type throws; otherwise true iff some registered state has the type |
| StateMachine.Machine.TryGetState | Assets/Package/Runtime/States/BaseStateMachine.cs:154-158 | a null type throws; otherwise the registered state of that type, or none when the type is unregistered |
| NoneStates.NoneStateRepresentsOnlyNull | Assets/Package/Runtime/States/NoneState.cs:15 | the none state represents the null type and no other, and converts to null |
| NoneStates.NoneStateDestinationStopsMachine | Assets/Package/Runtime/States/NoneState.cs:5-8 | the none state used as a destination resets the machine at that point of the walk |
| NoneStates.NoneStateIsNeverRegistered | Assets/Package/Runtime/States/NoneState.cs:15 | appending, removing or changing to the none state throws |
| NoneStates.GenericNoneDestinationDoesNotStop | Assets/Package/Runtime/States/BaseState.cs:13-16 | as written, AppendDestination<NoneState>() yields a destination that only logs a warning and keeps the machine running |
| NoneStates.IntendedNoneDestinationStops | Assets/Package/Runtime/States/NoneState.cs:5-8 | corrected: the generic NoneState destination resets the machine |
| Managers.CallKeepsAlternation | Runtime/ManagerBase.cs:34-58 | every Initialize, Deinitialize or destroy keeps the life cycle in order: hook before notification, initialise and deinitialise alternating, flag set exactly in between |
| Managers.RunKeepsAlternation | Runtime/ManagerBase.cs:15-58 | any sequence of calls from a fresh manager gives an ordered life cycle, so OnDeinitialized fires at most once per initialisation |
| Managers.FreshManagerAlternates | Runtime/ManagerBase.cs:60 | a new manager is uninitialised with an empty life cycle |
| Managers.RepeatedCallsAreHarmless | Runtime/ManagerBase.cs:36-53 | a second Initialize only warns and keeps the flag set; Deinitialize of an uninitialised manager does nothing |
| Managers.Manager.constructor | Runtime/ManagerBase.cs:60 | a new manager is not initialised |
| Managers.Manager.Initialize | Runtime/ManagerBase.cs:34-46 | the new state is InitializeOf of the old: a warning, or OnInitialize seeing the flag false, then the flag, then OnInitialized |
| Managers.Manager.Deinitialize | Runtime/ManagerBase.cs:48-58 | the new state is DeinitializeOf of the old: nothing, or OnDeinitialize seeing the flag true, then the flag cleared, then OnDeinitialized |
| Managers.Manager.OnDestroy | Runtime/ManagerBase.cs:15-18 | destroying the manager deinitialises it |
| Coroutines.RunCoroutineWithoutYields | Runtime/Utilities/IEnumeratorExtensions.cs:10-40 | the stack-based loop returns exactly what the one-step-at-a-time reference drain of the depth-first item order returns |
| Coroutines.DrainClosedForm | Runtime/Utilities/IEnumeratorExtensions.cs:31-35 | in closed form: it throws when a Coroutine comes at or before the step where the budget runs out; it returns false when the budget runs out first, and true otherwise |
| Coroutines.SucceedsIffUnderBudget | Runtime/Utilities/IEnumeratorExtensions.cs:15-39 | true iff no Coroutine is yielded and the total number of yields in the tree is 0 or below maxYields |
| Coroutines.EmptyEnumeratorSucceeds | Runtime/Utilities/IEnumeratorExtensions.cs:15-39 | an enumerator that yields nothing returns true whatever maxYields is |
| Coroutines.TinyBudgetStopsAtFirstYield | Runtime/Utilities/IEnumeratorExtensions.cs:31-35 | with maxYields at most 1, the first yield ends the run: false, or the exception for a Coroutine |
| Coroutines.ChildRunsBeforeParentResumes | Runtime/Utilities/IEnumeratorExtensions.cs:18-26 | a nested enumerator's items all come right after it, before the parent's remaining items |
| Coroutines.FlattenAppend | Runtime/Utilities/IEnumeratorExtensions.cs:18-26 | draining two enumerators in sequence yields the items of the first and then those of the second |
| ListExtensions.DestinedCapacity | Assets/Package/Runtime/Utilities/ListExtensions.cs:19-29 | the doubling loop, with C# int wrap-around, ends at a capacity that obeys the capacity law and is at least the start capacity and the length |
| ListExtensions.NativeList.CopyFrom | Assets/Package/Runtime/Utilities/ListExtensions.cs:17-34 | the capacity obeys the law (unchanged if already large enough; otherwise start·2^k for the least k that reaches the length; 2(length-1) from 0) and never shrinks; afterwards the size is the length, the first items are the source's in order, and IsNullOrEmpty holds iff the source is empty |
| ListExtensions.NullOrEmptyHoldsNoItem | Assets/Package/Runtime/Utilities/ListExtensions.cs:50-53 | IsNullOrEmpty holds iff the list is null or holds no item |
| Reflection.SimpleTypeNameIsAlias | Runtime/Utilities/ReflectionUtility.cs:23-40 | Int32, Single, Double, Boolean and String map to int, float, double, bool and string; any other name is returned unchanged |
| Reflection.NamespaceIgnored | Runtime/Utilities/ReflectionUtility.cs:25 | the alias depends on the short name only, not the namespace |
| Reflection.GetMethodDefinitionString | Runtime/Utilities/ReflectionUtility.cs:9-21 | the builder loop yields the method name followed by one white segment per parameter, in declaration order |
| Reflection.SegmentsAppend | Runtime/Utilities/ReflectionUtility.cs:14-18 | the segments of two parameter lists concatenate |
| Reflection.DefinitionStartsWithName | Runtime/Utilities/ReflectionUtility.cs:11-20 | the output starts with the method name, and a parameterless method yields exactly its name |
| Reflection.DefinitionOfOneMoreParameter | Runtime/Utilities/ReflectionUtility.cs:14-18 | one more parameter appends exactly its segment |

## Left out

- ObjectPool.Pool.constructor: a plain pool with a null creation function is excluded (`WellFormed`). In C# it fails only on the first creation, with a null reference.
- Element identity: the creation function is modelled as producing a new element numbered by the pool's creation count. What user code does inside the callbacks is not modelled, and neither is re-entrancy into the pool.
- ObjectPool.Pool.CountActive: the counter is an unbounded integer; 32-bit overflow after 2^31 unbalanced releases is not modelled.
- NativeObjectPool's `defaultCapacity` parameter: it is accepted and never used, in C# as in the model.
- ObjectPool.Pool.CountPooled: a plain read of the queue length; what it reports is stated through the queue in the Get, Release, FillPool and Clear lemmas and through CountAll.
- States.State.GetDestinations returns the destination list as a value. The C# method hands out the live list, so a caller holding it sees later appends and removals; that aliasing is not modelled.
- NativeFactory.Factory.CachePrefab is called with the factory's own parent and pre-fill count, as the constructor calls it. A subclass calling the protected method with other arguments is not modelled.
- NativeFactory.Factory.Dispose takes the set of game objects destroyed by game code as a parameter, since the engine's destroyed state is not part of the factory.
- Object.Destroy is deferred to the end of the frame by the engine; the model marks the game object destroyed at once.
- StateMachine.Machine.Start: with no declared start state, C# picks `First()` of a .NET `Dictionary`. The model uses registration order, and the slot reuse of a dictionary after a removal is not modelled.
- StateMachine.Machine.TryGetState: the generic `TState` cast (`s as TState`) is modelled for `TState == T` only, which is how the machine itself calls it.
- The Tick, BeginState and CloseState hooks are only recorded. A hook that changes a destination list or the registry during Tick is not modelled; the walk reads the list as it was when the walk began.
- OnStateChanged, OnInitialized and OnDeinitialized: raised events are recorded in the trace whether or not a listener is attached.
- Log messages are trace or log entries. Their text is not modelled.
- The NoneState singleton: `State.None` constructs a state with a null type. That only one such instance exists (private constructor, static Instance) is not modelled.
- Managers.Manager: a hook that calls back into the manager (OnInitialize calling Deinitialize, say) is not modelled; each hook is an opaque trace entry.
- Managers.Manager: the protected setter of IsInitialized, by which subclasses could change the flag directly, is not modelled. OnValidate (transform reset) is engine glue and is left out.
- ListExtensions.NativeList.CopyFrom and ListExtensions.DestinedCapacity require the source length to be at most 2^30. Above that, the positive doubling can overflow into a cycle, which is not modelled.
- ListExtensions.NativeList.CopyFrom and ListExtensions.DestinedCapacity also require that capacity 0 is not paired with length 1. In C# that case loops forever, because the first candidate 0 doubles to 0.
- CopyFrom writes `_items` and `_size` through reflection without bumping the list's `_version`; only the effect on capacity, size and contents is modelled.
- ListExtensions.GetRandom is left out because it depends on the engine's random number generator.
- Coroutines.RunCoroutineWithoutYields: a null enumerator is not modelled (an enumerator is a list of items). In C# it is pushed, popped and then dereferenced by MoveNext, which throws a null reference exception (Runtime/Utilities/IEnumeratorExtensions.cs:13-19).
- ObjectPool.Pool.Release: releasing null is not modelled, because elements are values that are never null. In C#, Release(null) on a native pool with room enqueues null and then throws in the deactivation (Assets/Package/Runtime/Patterns/NativeObjectPool.cs:62) before CountActive is decremented. The queue keeps the null and the counter is left as it was. On a full bounded pool it runs the user destroy callback on null and then throws in the destruction (Assets/Package/Runtime/Patterns/NativeObjectPool.cs:57). Nothing is enqueued and the counter is left as it was.
- RunCoroutineWithoutYields: an enumerator that never ends is not modelled, because each enumerator is a finite list of items. In C# such a run returns false once the budget is spent, since every MoveNext counts as a step.
- RunCoroutineWithoutYields: an enumerator is modelled by the items it still has to yield. Side effects of MoveNext and values other than nested enumerators and Coroutines are not modelled, and those values are treated alike.

## Findings

| source | as written | input that shows it | evidently intended | confidence | as-written member | corrected member |
|---|---|---|---|---|---|---|
| Assets/Package/Runtime/Patterns/NativeObjectPool.cs:21 | the short constructor passes `maxSize` positionally into the `defaultCapacity` parameter of the extended constructor, so the pool's bound is always -1 | `new NativeObjectPool<T>(prefab, parent, false, 1)`, then two releases: both elements are kept | `maxSize` bounds the pool, as its documentation says | not executed | NativeObjectPool.ShortConfigIgnoresMaxSize | NativeObjectPool.IntendedShortConfigBoundsPool |
| Assets/Package/Runtime/States/BaseState.cs:13-16 | `AppendDestination<NoneState>()` appends `typeof(NoneState)`, which is not null; no state is registered under it, so Tick logs a warning and goes on | a state with destination list `[typeof(NoneState)]` wanting to close: the machine keeps its current state | using NoneState as a destination stops the machine, as NoneState's documentation says | not executed | NoneStates.GenericNoneDestinationDoesNotStop | NoneStates.IntendedNoneDestinationStops |
