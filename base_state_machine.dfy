/** BaseStateMachine<T>: a registry of states keyed by their type, and the current
    state. Tick runs the current state's hook and, once it wants to close, walks its
    destination list. The hooks, the OnStateChanged notification and the warning log
    are recorded in a trace of events.

    The registry is a dictionary in the C# code; here it is the sequence of the
    registered states in registration order, with pairwise distinct, non-null types. */
module StateMachine {
  import opened Wrappers
  import opened States

  /** What the machine does that is visible outside its own fields. */
  datatype Event =
    | Ticked(s: State)                    // the state's Tick hook
    | Began(s: State)                     // the state's BeginState hook
    | Closed(s: State)                    // the state's CloseState hook
    | Changed(s: State)                   // OnStateChanged raised with the new state
    | MissingDestination(t: TypeTag)      // "Cannot find state of type" warning
    | AlreadyRegistered(t: TypeTag)       // "is already registered" warning

  /** The exceptions the machine can throw. */
  datatype Error = ArgumentNull | NullReference | KeyNotFound

  /** The machine's fields as one value: the registry, the current state, the trace. */
  datatype MachineState = MachineState(states: seq<State>, current: State?, trace: seq<Event>)

  /** A registry: every registered state has a non-null type, and no type twice. */
  ghost predicate Registry(reg: seq<State>) {
    && (forall i :: 0 <= i < |reg| ==> reg[i].stateType != NullType)
    && (forall i, j :: 0 <= i < j < |reg| ==> reg[i].stateType != reg[j].stateType)
  }

  /** Dictionary lookup by type. */
  function Lookup(reg: seq<State>, t: TypeTag): (r: Option<State>)
    ensures r.Some? ==> r.value in reg && r.value.stateType == t
    ensures r.None? <==> forall i :: 0 <= i < |reg| ==> reg[i].stateType != t
    decreases |reg|
  {
    if reg == [] then None
    else if reg[0].stateType == t then Some(reg[0])
    else
      assert forall i :: 1 <= i < |reg| ==> reg[i] == reg[1..][i - 1];
      Lookup(reg[1..], t)
  }

  /** Dictionary removal by type. */
  function Without(reg: seq<State>, t: TypeTag): seq<State>
    decreases |reg|
  {
    if reg == [] then []
    else if reg[0].stateType == t then Without(reg[1..], t)
    else [reg[0]] + Without(reg[1..], t)
  }

  /** IsStateActive: reference equality with the current state. */
  predicate Active(m: MachineState, s: State?) {
    m.current == s
  }

  /** IsWorking: there is a current state. */
  predicate Working(m: MachineState) {
    m.current != null
  }

  /** HasStates: the registry is not empty. */
  predicate Populated(m: MachineState) {
    m.states != []
  }

  /** The hooks run when leaving the current state, if there is one. */
  function Closing(m: MachineState): seq<Event> {
    if m.current != null then [Closed(m.current)] else []
  }

  /** A successful ChangeState: close the current state, begin the next, notify. */
  function ChangeTo(m: MachineState, next: State): MachineState {
    m.(current := next, trace := m.trace + Closing(m) + [Began(next), Changed(next)])
  }

  /** Reset: close the current state, if any, and clear it. */
  function ResetOf(m: MachineState): MachineState {
    m.(current := null, trace := m.trace + Closing(m))
  }

  /** ChangeState(Type): the new state and whether the type was registered. */
  function ChangeStateOf(m: MachineState, t: TypeTag): Result<(MachineState, bool), Error> {
    if t == NullType then Failure(ArgumentNull)
    else match Lookup(m.states, t)
      case None => Success((m, false))
      case Some(s) => Success((ChangeTo(m, s), true))
  }

  /** Start: nothing without states; otherwise the declared start state, or the first
      registered one when none is declared. WantsToBegin is not consulted. */
  function StartOf(m: MachineState, start: TypeTag): Result<MachineState, Error> {
    if m.states == [] then Success(m)
    else if start == NullType then Success(ChangeTo(m, m.states[0]))
    else match Lookup(m.states, start)
      case None => Failure(KeyNotFound)
      case Some(s) => Success(ChangeTo(m, s))
  }

  /** AppendState: the new state and whether `s` was registered. */
  function AppendOf(m: MachineState, s: State?, setAsCurrent: bool): Result<(MachineState, bool), Error> {
    if s == null || s.stateType == NullType then Failure(ArgumentNull)
    else if Lookup(m.states, s.stateType).Some? then
      Success((m.(trace := m.trace + [AlreadyRegistered(s.stateType)]), false))
    else
      var m1 := m.(states := m.states + [s]);
      Success((if setAsCurrent then ChangeTo(m1, s) else m1, true))
  }

  /** RemoveState: the registration of the state's type is dropped, whichever instance
      holds it; the machine resets only when that removal happened and `s` itself is
      current. */
  function RemoveOf(m: MachineState, s: State?): Result<(MachineState, bool), Error> {
    if s == null then Failure(NullReference)
    else if s.stateType == NullType then Failure(ArgumentNull)
    else
      var existed := Lookup(m.states, s.stateType).Some?;
      var m1 := m.(states := Without(m.states, s.stateType));
      Success((if existed && m.current == s then ResetOf(m1) else m1, existed))
  }

  /** The constructor: AppendState of every list entry, in order, none as current. */
  function RegisterAll(m: MachineState, list: seq<State?>): Result<MachineState, Error>
    decreases |list|
  {
    if list == [] then Success(m)
    else match AppendOf(m, list[0], false)
      case Failure(e) => Failure(e)
      case Success((m1, _)) => RegisterAll(m1, list[1..])
  }

  /** The walk over a destination list in Tick: a null entry resets and stops; a
      registered type whose state wants to begin becomes current and the walk goes on;
      an unregistered type is logged and skipped. */
  function Walk(m: MachineState, dests: seq<TypeTag>): MachineState
    reads m.states
    decreases |dests|
  {
    if dests == [] then m
    else if dests[0] == NullType then ResetOf(m)
    else match Lookup(m.states, dests[0])
      case None => Walk(m.(trace := m.trace + [MissingDestination(dests[0])]), dests[1..])
      case Some(s) => Walk(if s.wantsToBegin then ChangeTo(m, s) else m, dests[1..])
  }

  /** Tick: nothing without a current state; otherwise its Tick hook, and, if it wants
      to close, the walk over its destinations. */
  function TickOf(m: MachineState): MachineState
    reads m.states, m.current
  {
    if m.current == null then m
    else
      var m1 := m.(trace := m.trace + [Ticked(m.current)]);
      if !m.current.wantsToClose then m1 else Walk(m1, m.current.destinations)
  }

  // ---------------------------------------------------------------------------
  // The registry

  /** A registered state is found by its own type. */
  lemma {:induction false} LookupFindsRegistered(reg: seq<State>, i: int)
    requires Registry(reg) && 0 <= i < |reg|
    ensures Lookup(reg, reg[i].stateType) == Some(reg[i])
    decreases |reg|
  {
    if i > 0 {
      assert reg[0].stateType != reg[i].stateType;
      LookupFindsRegistered(reg[1..], i - 1);
    }
  }

  lemma {:induction false} LookupAppend(reg: seq<State>, s: State, t: TypeTag)
    ensures Lookup(reg + [s], t) ==
      if Lookup(reg, t).Some? then Lookup(reg, t) else if s.stateType == t then Some(s) else None
    decreases |reg|
  {
    if reg != [] {
      assert (reg + [s])[1..] == reg[1..] + [s];
      LookupAppend(reg[1..], s, t);
    }
  }

  lemma {:induction false} WithoutDropsType(reg: seq<State>, t: TypeTag, u: TypeTag)
    requires Registry(reg)
    ensures Registry(Without(reg, t))
    ensures Lookup(Without(reg, t), u) == if u == t then None else Lookup(reg, u)
    decreases |reg|
  {
    if reg != [] {
      WithoutDropsType(reg[1..], t, u);
      var rest := Without(reg[1..], t);
      assert forall k :: 0 <= k < |rest| ==> rest[k] in reg[1..] by {
        WithoutIsSubsequence(reg[1..], t);
      }
      if reg[0].stateType != t {
        var w := [reg[0]] + rest;
        forall i, j | 0 <= i < j < |w| ensures w[i].stateType != w[j].stateType {
          if i == 0 {
            var k :| 1 <= k < |reg| && reg[k] == w[j];
          }
        }
      }
    }
  }

  lemma {:induction false} WithoutIsSubsequence(reg: seq<State>, t: TypeTag)
    ensures forall x :: x in Without(reg, t) ==> x in reg && x.stateType != t
    decreases |reg|
  {
    if reg != [] {
      WithoutIsSubsequence(reg[1..], t);
    }
  }

  /** AppendState throws exactly for a null state or the none state; otherwise it
      registers the state iff its type is new, keeps the registry a registry, and, when
      asked, makes the newly registered state current. A duplicate changes neither the
      registry nor the current state. */
  lemma AppendRegisters(m: MachineState, s: State?, setAsCurrent: bool, t: TypeTag)
    requires Registry(m.states)
    ensures AppendOf(m, s, setAsCurrent).Success? <==> s != null && s.stateType != NullType
    ensures AppendOf(m, s, setAsCurrent).Success? ==>
      var (m', added) := AppendOf(m, s, setAsCurrent).value;
      && Registry(m'.states)
      && (added <==> Lookup(m.states, s.stateType).None?)
      && (added ==> Lookup(m'.states, t) == if t == s.stateType then Some(s) else Lookup(m.states, t))
      && (added && setAsCurrent ==> m'.current == s)
      && (!(added && setAsCurrent) ==> m'.current == m.current)
      && (!added ==> m'.states == m.states)
  {
    if s != null && s.stateType != NullType && Lookup(m.states, s.stateType).None? {
      LookupAppend(m.states, s, t);
      var reg := m.states + [s];
      assert forall i :: 0 <= i < |m.states| ==> reg[i] == m.states[i];
    }
  }

  /** RemoveState throws for a null state or the none state; otherwise it reports
      whether the type was registered, unregisters that type and no other, and resets
      the machine only when the removed state was current. */
  lemma RemoveUnregisters(m: MachineState, s: State?, t: TypeTag)
    requires Registry(m.states)
    ensures RemoveOf(m, s).Success? <==> s != null && s.stateType != NullType
    ensures RemoveOf(m, s).Success? ==>
      var (m', existed) := RemoveOf(m, s).value;
      && Registry(m'.states)
      && (existed <==> Lookup(m.states, s.stateType).Some?)
      && Lookup(m'.states, t) == (if t == s.stateType then None else Lookup(m.states, t))
      && m'.current == (if existed && m.current == s then null else m.current)
  {
    if s != null && s.stateType != NullType {
      WithoutDropsType(m.states, s.stateType, t);
    }
  }

  /** Removing the registration of a current state through another instance of the same
      type leaves the machine running a state it no longer holds. */
  lemma RemoveThroughOtherInstanceKeepsCurrent(m: MachineState, s: State)
    requires Registry(m.states) && m.current != null && m.current in m.states
    requires s != m.current && s.stateType == m.current.stateType
    ensures var (m', existed) := RemoveOf(m, s).value;
      existed && m'.current == m.current && Lookup(m'.states, s.stateType).None?
  {
    WithoutDropsType(m.states, s.stateType, s.stateType);
  }

  /** The constructor throws exactly when the list holds a null state or the none state;
      otherwise every listed type is registered, to the first listed state of that type,
      earlier registrations are kept, and nothing becomes current. */
  lemma {:induction false} RegisterAllRegistersEach(m: MachineState, list: seq<State?>, t: TypeTag)
    requires Registry(m.states)
    ensures RegisterAll(m, list).Success? <==> forall i :: 0 <= i < |list| ==> list[i] != null && list[i].stateType != NullType
    ensures RegisterAll(m, list).Success? ==>
      var m' := RegisterAll(m, list).value;
      && Registry(m'.states) && m'.current == m.current
      && (Lookup(m.states, t).Some? ==> Lookup(m'.states, t) == Lookup(m.states, t))
      && (Lookup(m.states, t).None? ==> Lookup(m'.states, t) == FirstListed(list, t))
    decreases |list|
  {
    if list != [] {
      var s := list[0];
      AppendRegisters(m, s, false, t);
      if s != null && s.stateType != NullType {
        var m1 := AppendOf(m, s, false).value.0;
        RegisterAllRegistersEach(m1, list[1..], t);
        assert forall i :: 1 <= i < |list| ==> list[i] == list[1..][i - 1];
      }
    }
  }

  /** The first state of type `t` in a constructor list. */
  function FirstListed(list: seq<State?>, t: TypeTag): Option<State>
    decreases |list|
  {
    if list == [] then None
    else if list[0] != null && list[0].stateType == t then Some(list[0])
    else FirstListed(list[1..], t)
  }

  /** Start fails exactly when a declared start type is not registered, and otherwise
      begins the start state, or the first registered state, whatever its guards say. */
  lemma StartBeginsStartState(m: MachineState, start: TypeTag)
    requires Registry(m.states) && m.states != []
    ensures StartOf(m, start).Failure? <==> start != NullType && forall i :: 0 <= i < |m.states| ==> m.states[i].stateType != start
    ensures StartOf(m, start).Success? ==>
      var c := StartOf(m, start).value.current;
      c != null && c in m.states && (if start == NullType then c == m.states[0] else c.stateType == start)
  {
  }

  /** ChangeState does not skip a transition to the current state: it closes and begins
      it again and raises the notification. */
  lemma SelfTransitionRestarts(m: MachineState)
    requires Registry(m.states) && m.current != null && m.current in m.states
    ensures var c := m.current;
      ChangeStateOf(m, c.stateType) == Success((m.(trace := m.trace + [Closed(c), Began(c), Changed(c)]), true))
  {
    var i :| 0 <= i < |m.states| && m.states[i] == m.current;
    LookupFindsRegistered(m.states, i);
    assert m.trace + [Closed(m.current)] + [Began(m.current), Changed(m.current)]
        == m.trace + [Closed(m.current), Began(m.current), Changed(m.current)];
  }

  /** ChangeState of an unregistered type reports false and changes nothing. */
  lemma ChangeToUnregisteredIsNoop(m: MachineState, t: TypeTag)
    requires t != NullType && forall i :: 0 <= i < |m.states| ==> m.states[i].stateType != t
    ensures ChangeStateOf(m, t) == Success((m, false))
  {
  }

  // ---------------------------------------------------------------------------
  // What the observers report

  /** A registered state is the one found under a type exactly when it represents
      that type. */
  lemma RepresentsIffRegisteredUnder(reg: seq<State>, s: State, t: TypeTag)
    requires Registry(reg) && s in reg
    ensures Lookup(reg, t) == Some(s) <==> s.Represents(t)
  {
    var i :| 0 <= i < |reg| && reg[i] == s;
    LookupFindsRegistered(reg, i);
  }

  /** The implicit conversion of a registered state yields the key it is found under. */
  lemma ConversionIsRegistryKey(reg: seq<State>, s: State)
    requires Registry(reg) && s in reg
    ensures Lookup(reg, s.AsType()) == Some(s)
  {
    RepresentsIffRegisteredUnder(reg, s, s.AsType());
  }

  /** ToString names the type without its namespace: two registered states that
      print the same name are of classes in different namespaces. */
  lemma SameNameMeansOtherNamespace(reg: seq<State>, i: int, j: int)
    requires Registry(reg) && 0 <= i < |reg| && 0 <= j < |reg| && i != j
    requires reg[i].ToString() == reg[j].ToString()
    ensures reg[i].stateType.ns != reg[j].stateType.ns
  {
    if i < j {
      assert reg[i].stateType != reg[j].stateType;
    } else {
      assert reg[j].stateType != reg[i].stateType;
    }
  }

  /** So ToString does not identify a registered state: classes `Game.Idle` and
      `Ui.Idle` are both accepted by AppendState, and both print "Idle". */
  lemma ShortNamesMayCollide(a: State, b: State)
    requires a.stateType == TypeOf("Game", "Idle") && b.stateType == TypeOf("Ui", "Idle")
    ensures AppendOf(MachineState([], null, []), a, false) == Success((MachineState([a], null, []), true))
    ensures AppendOf(MachineState([a], null, []), b, false) == Success((MachineState([a, b], null, []), true))
    ensures Registry([a, b]) && a.ToString() == b.ToString() == "Idle"
  {
    assert [] + [a] == [a] && [a] + [b] == [a, b];
    assert a.stateType != b.stateType;
  }

  /** After ChangeState, the active state is the one registered under the requested
      type when there is one; otherwise the active state is the one that was active. */
  lemma ChangeStateActivates(m: MachineState, t: TypeTag, s: State?)
    requires Registry(m.states)
    ensures ChangeStateOf(m, t).Success? ==>
      var (m', changed) := ChangeStateOf(m, t).value;
      && (changed <==> Lookup(m.states, t).Some?)
      && (changed ==> (Active(m', s) <==> Lookup(m.states, t).Some? && Lookup(m.states, t).value == s))
      && (!changed ==> (Active(m', s) <==> Active(m, s)))
  {
  }

  /** HasStates holds exactly when some type is registered. */
  lemma PopulatedIffSomeTypeRegistered(m: MachineState)
    requires Registry(m.states)
    ensures Populated(m) <==> exists t :: Lookup(m.states, t).Some?
  {
    if Populated(m) {
      LookupFindsRegistered(m.states, 0);
    }
  }

  /** A successful Start of an idle machine makes it work exactly when it has states;
      Reset always leaves it idle. */
  lemma StartWorksIffPopulated(m: MachineState, start: TypeTag)
    requires !Working(m)
    ensures StartOf(m, start).Success? ==> (Working(StartOf(m, start).value) <==> Populated(m))
    ensures !Working(ResetOf(m))
  {
  }

  // ---------------------------------------------------------------------------
  // The destination walk

  /** A destination the walk switches to. */
  predicate Eligible(reg: seq<State>, t: TypeTag)
    reads reg
  {
    t != NullType && Lookup(reg, t).Some? && Lookup(reg, t).value.wantsToBegin
  }

  /** The state of the last eligible destination, if any. */
  function LastEligible(reg: seq<State>, dests: seq<TypeTag>): Option<State>
    reads reg
    decreases |dests|
  {
    if dests == [] then None
    else
      var later := LastEligible(reg, dests[1..]);
      if later.Some? then later
      else if Eligible(reg, dests[0]) then Lookup(reg, dests[0])
      else None
  }

  /** How many destinations the walk switches to. */
  function CountEligible(reg: seq<State>, dests: seq<TypeTag>): nat
    reads reg
    decreases |dests|
  {
    if dests == [] then 0
    else (if Eligible(reg, dests[0]) then 1 else 0) + CountEligible(reg, dests[1..])
  }

  /** How many state-changed notifications a trace holds. */
  function Changes(trace: seq<Event>): nat
    decreases |trace|
  {
    if trace == [] then 0
    else Changes(trace[..|trace| - 1]) + (if trace[|trace| - 1].Changed? then 1 else 0)
  }

  lemma {:induction false} ChangesAppend(a: seq<Event>, b: seq<Event>)
    ensures Changes(a + b) == Changes(a) + Changes(b)
    decreases |b|
  {
    if b != [] {
      assert (a + b)[..|a + b| - 1] == a + b[..|b| - 1];
      assert (a + b)[|a + b| - 1] == b[|b| - 1];
      ChangesAppend(a, b[..|b| - 1]);
      assert Changes(a + b) == Changes(a + b[..|b| - 1]) + (if b[|b| - 1].Changed? then 1 else 0);
    } else {
      assert a + b == a;
    }
  }

  /** A switch raises exactly one notification. */
  lemma ChangeToNotifiesOnce(m: MachineState, s: State)
    ensures Changes(ChangeTo(m, s).trace) == Changes(m.trace) + 1
  {
    var x := Closing(m);
    var y := x + [Began(s), Changed(s)];
    var z := x + [Began(s)];
    assert y[..|y| - 1] == z && y[|y| - 1] == Changed(s);
    assert z[..|z| - 1] == x && z[|z| - 1] == Began(s);
    assert Changes(x) == 0 by {
      if x != [] {
        assert x[..|x| - 1] == [];
      }
    }
    ChangesAppend(m.trace, y);
    assert ChangeTo(m, s).trace == m.trace + y;
  }

  /** Without a reset marker the walk keeps the registry, ends in the state of the LAST
      eligible destination (or where it started when none is eligible), and raises one
      notification per eligible destination: the states in between begin and close. */
  lemma {:induction false} WalkLastEligibleWins(m: MachineState, dests: seq<TypeTag>)
    requires NullType !in dests
    ensures var m' := Walk(m, dests);
      && m'.states == m.states
      && m'.current == (if LastEligible(m.states, dests).Some? then LastEligible(m.states, dests).value else m.current)
      && Changes(m'.trace) == Changes(m.trace) + CountEligible(m.states, dests)
    decreases |dests|
  {
    if dests != [] {
      assert NullType !in dests[1..];
      match Lookup(m.states, dests[0])
      case None =>
        var w := MissingDestination(dests[0]);
        WalkLastEligibleWins(m.(trace := m.trace + [w]), dests[1..]);
        assert (m.trace + [w])[..|m.trace|] == m.trace;
      case Some(s) =>
        var m1 := if s.wantsToBegin then ChangeTo(m, s) else m;
        WalkLastEligibleWins(m1, dests[1..]);
        ChangeToNotifiesOnce(m, s);
    }
  }

  /** The walk stops at the first reset marker: the destinations after it are never
      looked at. */
  lemma {:induction false} WalkStopsAtFirstNull(m: MachineState, pre: seq<TypeTag>, post: seq<TypeTag>)
    requires NullType !in pre
    ensures Walk(m, pre + [NullType] + post) == ResetOf(Walk(m, pre))
    decreases |pre|
  {
    if pre == [] {
      assert pre + [NullType] + post == [NullType] + post;
    } else {
      assert (pre + [NullType] + post)[1..] == pre[1..] + [NullType] + post;
      assert NullType !in pre[1..];
      match Lookup(m.states, pre[0])
      case None =>
        WalkStopsAtFirstNull(m.(trace := m.trace + [MissingDestination(pre[0])]), pre[1..], post);
      case Some(s) =>
        WalkStopsAtFirstNull(if s.wantsToBegin then ChangeTo(m, s) else m, pre[1..], post);
    }
  }

  /** Tick without a current state does nothing; a current state that does not want to
      close only runs its Tick hook. */
  lemma TickWaitsForClose(m: MachineState)
    ensures m.current == null ==> TickOf(m) == m
    ensures m.current != null && !m.current.wantsToClose ==>
      TickOf(m) == m.(trace := m.trace + [Ticked(m.current)])
  {
  }

  class Machine {
    const startState: TypeTag
    var states: seq<State>
    var current: State?
    var trace: seq<Event>

    function Value(): MachineState
      reads this
    {
      MachineState(states, current, trace)
    }

    ghost predicate Valid()
      reads this
    {
      Registry(states)
    }

    constructor Empty(startState: TypeTag)
      ensures Valid() && this.startState == startState
      ensures Value() == MachineState([], null, [])
    {
      this.startState := startState;
      states, current, trace := [], null, [];
    }

    /** The C# constructor: a null list gives an empty machine; otherwise each entry
        is appended in order, and the first exception escapes. */
    static method New(list: Option<seq<State?>>, startState: TypeTag) returns (r: Result<Machine, Error>)
      ensures var expected := if list.None? then Success(MachineState([], null, [])) else RegisterAll(MachineState([], null, []), list.value);
        match expected
        case Failure(e) => r == Failure(e)
        case Success(v) => r.Success? && fresh(r.value) && r.value.Valid() && r.value.startState == startState && r.value.Value() == v
    {
      var m := new Machine.Empty(startState);
      if list.None? {
        return Success(m);
      }
      var xs := list.value;
      var i := 0;
      while i < |xs|
        invariant 0 <= i <= |xs|
        invariant fresh(m) && m.Valid() && m.startState == startState
        invariant RegisterAll(MachineState([], null, []), xs) == RegisterAll(m.Value(), xs[i..])
      {
        assert xs[i..][1..] == xs[i + 1..];
        var added := m.AppendState(xs[i], false);
        if added.Failure? {
          return Failure(added.error);
        }
        i := i + 1;
      }
      return Success(m);
    }

    method Start() returns (r: Result<(), Error>)
      requires Valid()
      modifies this
      ensures Valid() && states == old(states)
      ensures match StartOf(old(Value()), startState)
        case Failure(e) => r == Failure(e) && Value() == old(Value())
        case Success(v) => r == Success(()) && Value() == v
    {
      if states == [] {
        return Success(());
      }
      var next: State;
      if startState == NullType {
        next := states[0];
        LookupFindsRegistered(states, 0);
      } else {
        var found := TryGetState(startState);
        if found.value.None? {
          return Failure(KeyNotFound);
        }
        next := found.value.value;
      }
      var changed := ChangeState(next.stateType);
      return Success(());
    }

    method Tick()
      requires Valid()
      modifies this
      ensures Valid() && states == old(states)
      ensures Value() == TickOf(old(Value()))
    {
      if current == null {
        return;
      }
      var cur := current;
      trace := trace + [Ticked(cur)];
      if !cur.wantsToClose {
        return;
      }
      var dests := cur.destinations;
      ghost var start := Value();
      var i := 0;
      while i < |dests|
        invariant 0 <= i <= |dests|
        invariant Valid() && states == old(states)
        invariant Walk(start, dests) == Walk(Value(), dests[i..])
      {
        assert dests[i..][1..] == dests[i + 1..];
        var d := dests[i];
        if d == NullType {
          Reset();
          return;
        }
        ghost var before := Value();
        var found := TryGetState(d);
        match found.value {
          case Some(s) =>
            assert Walk(before, dests[i..]) == Walk(if s.wantsToBegin then ChangeTo(before, s) else before, dests[i + 1..]);
            if s.wantsToBegin {
              var changed := ChangeState(s.stateType);
            }
          case None =>
            trace := trace + [MissingDestination(d)];
        }
        i := i + 1;
      }
    }

    method Reset()
      modifies this
      ensures Value() == ResetOf(old(Value()))
    {
      if current != null {
        trace := trace + [Closed(current)];
      }
      current := null;
    }

    method AppendState(s: State?, setAsCurrent: bool) returns (r: Result<bool, Error>)
      requires Valid()
      modifies this
      ensures Valid()
      ensures match AppendOf(old(Value()), s, setAsCurrent)
        case Failure(e) => r == Failure(e) && Value() == old(Value())
        case Success(p) => r == Success(p.1) && Value() == p.0
    {
      AppendRegisters(Value(), s, setAsCurrent, NullType);
      if s == null || s.stateType == NullType {
        return Failure(ArgumentNull);
      }
      var known := ContainsState(s.stateType);
      if known.value {
        trace := trace + [AlreadyRegistered(s.stateType)];
        return Success(false);
      }
      LookupAppend(states, s, s.stateType);
      states := states + [s];
      if setAsCurrent {
        var changed := ChangeState(s.stateType);
      }
      return Success(true);
    }

    method RemoveState(s: State?) returns (r: Result<bool, Error>)
      requires Valid()
      modifies this
      ensures Valid()
      ensures match RemoveOf(old(Value()), s)
        case Failure(e) => r == Failure(e) && Value() == old(Value())
        case Success(p) => r == Success(p.1) && Value() == p.0
    {
      RemoveUnregisters(Value(), s, NullType);
      if s == null {
        return Failure(NullReference);
      }
      if s.stateType == NullType {
        return Failure(ArgumentNull);
      }
      var existed := Lookup(states, s.stateType).Some?;
      states := Without(states, s.stateType);
      if existed && current == s {
        Reset();
      }
      return Success(existed);
    }

    /** ChangeState(T): the state's own type; a null state throws. */
    method ChangeStateTo(s: State?) returns (r: Result<bool, Error>)
      requires Valid()
      modifies this
      ensures Valid() && states == old(states)
      ensures s == null ==> r == Failure(NullReference) && Value() == old(Value())
      ensures s != null ==> match ChangeStateOf(old(Value()), s.stateType)
        case Failure(e) => r == Failure(e) && Value() == old(Value())
        case Success(p) => r == Success(p.1) && Value() == p.0
    {
      if s == null {
        return Failure(NullReference);
      }
      r := ChangeState(s.stateType);
    }

    method ChangeState(t: TypeTag) returns (r: Result<bool, Error>)
      requires Valid()
      modifies this
      ensures Valid() && states == old(states)
      ensures match ChangeStateOf(old(Value()), t)
        case Failure(e) => r == Failure(e) && Value() == old(Value())
        case Success(p) => r == Success(p.1) && Value() == p.0
    {
      var found := TryGetState(t);
      if found.Failure? {
        return Failure(found.error);
      }
      if found.value.None? {
        return Success(false);
      }
      var next := found.value.value;
      if current != null {
        trace := trace + [Closed(current)];
      }
      current := next;
      trace := trace + [Began(next), Changed(next)];
      return Success(true);
    }

    /** ContainsState: a null type throws; otherwise whether some registered state has
        that type. */
    method ContainsState(t: TypeTag) returns (r: Result<bool, Error>)
      ensures t == NullType ==> r == Failure(ArgumentNull)
      ensures t != NullType ==> r.Success? && (r.value <==> exists i :: 0 <= i < |states| && states[i].stateType == t)
    {
      if t == NullType {
        return Failure(ArgumentNull);
      }
      return Success(Lookup(states, t).Some?);
    }

    /** TryGetState with the machine's own state type: a null type throws; otherwise the
        registered state of that type, if any. */
    method TryGetState(t: TypeTag) returns (r: Result<Option<State>, Error>)
      requires Valid()
      ensures t == NullType ==> r == Failure(ArgumentNull)
      ensures t != NullType ==> r.Success?
      ensures r.Success? && r.value.Some? ==> r.value.value in states && r.value.value.stateType == t
      ensures r.Success? && r.value.None? ==> forall i :: 0 <= i < |states| ==> states[i].stateType != t
      ensures r.Success? ==> r.value == Lookup(states, t)
    {
      if t == NullType {
        return Failure(ArgumentNull);
      }
      return Success(Lookup(states, t));
    }

    function IsStateActive(s: State?): bool
      reads this
    {
      Active(Value(), s)
    }

    function HasStates(): bool
      reads this
    {
      Populated(Value())
    }

    function IsWorking(): bool
      reads this
    {
      Working(Value())
    }
  }
}
