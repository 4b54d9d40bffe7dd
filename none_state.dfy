/** NoneState: the state whose Type is null. Converted to a Type it is the reset
    marker of a destination list; it can never be registered in a machine. The
    singleton instance is the `State.None` constructor of module States. */
module NoneStates {
  import opened Wrappers
  import opened States
  import opened StateMachine

  /** The none state represents the null type and no state class. */
  lemma NoneStateRepresentsOnlyNull(s: State, t: TypeTag)
    requires s.stateType == NullType
    ensures s.Represents(t) <==> t == NullType
    ensures s.AsType() == NullType
  {
  }

  /** Appending the none state as a destination stops the machine at that point of
      the walk: the current state is closed and nothing after it is considered. */
  lemma NoneStateDestinationStopsMachine(m: MachineState, s: State, pre: seq<TypeTag>, post: seq<TypeTag>)
    requires s.stateType == NullType && NullType !in pre
    ensures Walk(m, pre + [s.AsType()] + post) == ResetOf(Walk(m, pre))
    ensures Walk(m, [s.AsType()] + post).current == null
  {
    WalkStopsAtFirstNull(m, pre, post);
    WalkStopsAtFirstNull(m, [], post);
    assert [] + [s.AsType()] + post == [s.AsType()] + post;
  }

  /** The none state cannot be registered, removed or changed to: each call throws. */
  lemma NoneStateIsNeverRegistered(m: MachineState, s: State, setAsCurrent: bool)
    requires s.stateType == NullType
    ensures AppendOf(m, s, setAsCurrent) == Failure(ArgumentNull)
    ensures RemoveOf(m, s) == Failure(ArgumentNull)
    ensures ChangeStateOf(m, s.AsType()) == Failure(ArgumentNull)
  {
  }

  /** AppendDestination<NoneState>() as written appends typeof(NoneState), which no
      registered state has (the none state's own type is null): the walk logs a
      missing destination and the machine keeps running. */
  lemma GenericNoneDestinationDoesNotStop(m: MachineState)
    requires forall i :: 0 <= i < |m.states| ==> m.states[i].stateType != GenericTag(NoneStateNamespace, NoneStateClass)
    ensures Walk(m, [GenericTag(NoneStateNamespace, NoneStateClass)]) ==
      m.(trace := m.trace + [MissingDestination(GenericTag(NoneStateNamespace, NoneStateClass))])
    ensures Walk(m, [GenericTag(NoneStateNamespace, NoneStateClass)]).current == m.current
  {
    var t := GenericTag(NoneStateNamespace, NoneStateClass);
    assert Lookup(m.states, t).None?;
    assert [t][1..] == [];
  }

  /** With the intended generic append, naming NoneState as a destination resets the
      machine, as appending the none state itself does. */
  lemma IntendedNoneDestinationStops(m: MachineState, post: seq<TypeTag>)
    ensures Walk(m, [IntendedGenericTag(NoneStateNamespace, NoneStateClass)] + post) == ResetOf(m)
  {
  }
}
