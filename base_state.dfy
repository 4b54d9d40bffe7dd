/** BaseState: one state of a state machine. A state is identified by its `Type`
    (its runtime type, null for the none state) and carries an ordered list of
    destination types, most recently appended first; a null entry means "reset the
    machine". The overridable guards WantsToBegin/WantsToClose are oracle flags that
    the surrounding game code sets; both start out true, as the default overrides
    return. The BeginState, CloseState and Tick hooks are recorded by the machine in
    its trace (see module StateMachine). */
module States {

  /** A System.Type reference as the state framework uses it. `TypeOf(ns, name)` is
      the runtime type of the state class `name` declared in namespace `ns`: two
      types are the same only when both parts agree, while `Type.Name` is `name`
      alone. `NullType` is a null reference. */
  datatype TypeTag = NullType | TypeOf(ns: string, name: string)

  /** The namespace and class name of the none state. */
  const NoneStateNamespace: string := "BroWar.Common.States"
  const NoneStateClass: string := "NoneState"

  /** typeof(T) for a state class T named `className` in namespace `ns`: never null. */
  function GenericTag(ns: string, className: string): (t: TypeTag)
    ensures t != NullType && t.ns == ns && t.name == className
  {
    TypeOf(ns, className)
  }

  /** typeof(T) as the none state's documentation reads: naming NoneState as a
      destination means the reset marker. */
  function IntendedGenericTag(ns: string, className: string): (t: TypeTag)
    ensures t == NullType <==> ns == NoneStateNamespace && className == NoneStateClass
    ensures t != NullType ==> t == GenericTag(ns, className)
  {
    if ns == NoneStateNamespace && className == NoneStateClass then NullType else TypeOf(ns, className)
  }

  /** List.Remove: drops the first occurrence of `t`, if any. */
  function RemoveFirst(xs: seq<TypeTag>, t: TypeTag): seq<TypeTag>
    decreases |xs|
  {
    if xs == [] then []
    else if xs[0] == t then xs[1..]
    else [xs[0]] + RemoveFirst(xs[1..], t)
  }

  /** Index of the first occurrence of `t` in `xs`. */
  function IndexOf(xs: seq<TypeTag>, t: TypeTag): (i: nat)
    requires t in xs
    ensures i < |xs| && xs[i] == t && t !in xs[..i]
    decreases |xs|
  {
    if xs[0] == t then 0 else 1 + IndexOf(xs[1..], t)
  }

  /** RemoveFirst cuts exactly the first occurrence out, and changes nothing when
      `t` does not occur. */
  lemma {:induction false} RemoveFirstCutsFirstOccurrence(xs: seq<TypeTag>, t: TypeTag)
    ensures t !in xs ==> RemoveFirst(xs, t) == xs
    ensures t in xs ==> RemoveFirst(xs, t) == xs[..IndexOf(xs, t)] + xs[IndexOf(xs, t) + 1..]
    decreases |xs|
  {
    if xs != [] && xs[0] != t {
      RemoveFirstCutsFirstOccurrence(xs[1..], t);
      if t in xs {
        assert t in xs[1..];
        var k := IndexOf(xs[1..], t);
        assert IndexOf(xs, t) == k + 1;
        assert xs[..k + 1] == [xs[0]] + xs[1..][..k];
        assert xs[k + 2..] == xs[1..][k + 1..];
      }
    }
  }

  /** Removing a destination takes away exactly one copy of it (none when absent). */
  lemma {:induction false} RemoveFirstMultiset(xs: seq<TypeTag>, t: TypeTag)
    ensures multiset(RemoveFirst(xs, t)) == multiset(xs) - multiset{t}
    decreases |xs|
  {
    if xs != [] {
      RemoveFirstMultiset(xs[1..], t);
      assert xs == [xs[0]] + xs[1..];
    }
  }

  class State {
    /** BaseState.Type: the runtime type, or null for the none state. */
    const stateType: TypeTag
    var destinations: seq<TypeTag>
    var wantsToBegin: bool
    var wantsToClose: bool

    /** A state of runtime class `className` in namespace `ns`, with no destinations
        and the default guards. */
    constructor (ns: string, className: string)
      ensures stateType == TypeOf(ns, className)
      ensures destinations == [] && wantsToBegin && wantsToClose
    {
      stateType := TypeOf(ns, className);
      destinations := [];
      wantsToBegin, wantsToClose := true, true;
    }

    /** The none state: its Type is null. */
    constructor None()
      ensures stateType == NullType
      ensures destinations == [] && wantsToBegin && wantsToClose
    {
      stateType := NullType;
      destinations := [];
      wantsToBegin, wantsToClose := true, true;
    }

    /** AppendDestination(Type): inserts at the head, without looking for duplicates;
        a null type is a reset marker. */
    method AppendDestination(t: TypeTag)
      modifies this`destinations
      ensures destinations == [t] + old(destinations)
    {
      destinations := [t] + destinations;
    }

    /** AppendDestination<T>(): the non-generic form applied to typeof(T), which is
        never null, even for T = NoneState. */
    method AppendDestinationOf(ns: string, className: string)
      modifies this`destinations
      ensures destinations == [GenericTag(ns, className)] + old(destinations)
    {
      AppendDestination(GenericTag(ns, className));
    }

    /** The generic append as the none state's documentation describes it: appending
        NoneState stops the machine, so it appends the reset marker. */
    method AppendDestinationOfIntended(ns: string, className: string)
      modifies this`destinations
      ensures destinations == [IntendedGenericTag(ns, className)] + old(destinations)
    {
      AppendDestination(IntendedGenericTag(ns, className));
    }

    /** RemoveDestination(Type): drops the first (most recently appended) occurrence. */
    method RemoveDestination(t: TypeTag)
      modifies this`destinations
      ensures destinations == RemoveFirst(old(destinations), t)
    {
      destinations := RemoveFirst(destinations, t);
    }

    /** RemoveDestination<T>(): the non-generic form applied to typeof(T). */
    method RemoveDestinationOf(ns: string, className: string)
      modifies this`destinations
      ensures destinations == RemoveFirst(old(destinations), GenericTag(ns, className))
    {
      RemoveDestination(GenericTag(ns, className));
    }

    method ClearDestinations()
      modifies this`destinations
      ensures destinations == []
    {
      destinations := [];
    }

    function GetDestinations(): seq<TypeTag>
      reads this
    {
      destinations
    }

    /** Represents(type): whether this state stands for the given type. */
    function Represents(t: TypeTag): (r: bool)
      ensures r <==> stateType == t
    {
      stateType == t
    }

    /** The implicit conversion to Type. */
    function AsType(): (t: TypeTag)
      ensures Represents(t)
    {
      stateType
    }

    /** ToString: the type's short name, without its namespace; the none state has no
        type to name. */
    function ToString(): (name: string)
      requires stateType != NullType
      ensures stateType == TypeOf(stateType.ns, name)
    {
      stateType.name
    }
  }
}
