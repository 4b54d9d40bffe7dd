/** RunCoroutineWithoutYields: drains an enumerator and the enumerators it yields,
    depth first, with an explicit stack and a budget of steps, all in one frame.

    An enumerator is modelled by the items it has still to yield: a plain value, a
    nested enumerator (itself given by its items), or an engine Coroutine. Every
    successful MoveNext is one step, whatever it yields. */
module Coroutines {
  import opened Wrappers

  datatype Item = Value | Nested(items: seq<Item>) | CoroutineItem

  /** The NotSupportedException thrown for a yielded Coroutine. */
  datatype CoroutineError = NotSupported

  /** The default step budget. */
  const DefaultMaxYields: int := 1000

  /** Every item yielded while draining `items`, in the order MoveNext produces them: a
      nested enumerator's own items come right after it and before the rest. */
  function Flatten(items: seq<Item>): seq<Item>
    decreases items
  {
    if items == [] then []
    else match items[0]
      case Nested(children) => [items[0]] + Flatten(children) + Flatten(items[1..])
      case _ => [items[0]] + Flatten(items[1..])
  }

  /** Every item still to come from a stack of suspended enumerators, top (last) first. */
  function Stacked(stack: seq<seq<Item>>): seq<Item>
    decreases |stack|
  {
    if stack == [] then [] else Flatten(stack[|stack| - 1]) + Stacked(stack[..|stack| - 1])
  }

  /** The reference semantics: go through the yielded items one step at a time. */
  function Drain(ys: seq<Item>, step: int, maxYields: int): Result<bool, CoroutineError>
    decreases |ys|
  {
    if ys == [] then Success(true)
    else if ys[0].CoroutineItem? then Failure(NotSupported)
    else if step + 1 >= maxYields then Success(false)
    else Drain(ys[1..], step + 1, maxYields)
  }

  method RunCoroutineWithoutYields(e: seq<Item>, maxYields: int := DefaultMaxYields) returns (r: Result<bool, CoroutineError>)
    ensures r == Drain(Flatten(e), 0, maxYields)
  {
    var stack: seq<seq<Item>> := [e];
    assert Stacked(stack) == Flatten(e) + Stacked([]) == Flatten(e);
    var step := 0;
    while stack != []
      invariant Drain(Flatten(e), 0, maxYields) == Drain(Stacked(stack), step, maxYields)
      decreases |Stacked(stack)|, |stack|
    {
      assert Stacked(stack) == Flatten(stack[|stack| - 1]) + Stacked(stack[..|stack| - 1]);
      var active := stack[|stack| - 1];
      stack := stack[..|stack| - 1];
      ghost var before := |Flatten(active) + Stacked(stack)|;
      ghost var rest := stack;
      while active != []
        invariant Drain(Flatten(e), 0, maxYields) == Drain(Flatten(active) + Stacked(stack), step, maxYields)
        invariant |Flatten(active) + Stacked(stack)| < before || (active == [] ==> stack == rest)
        invariant |Flatten(active) + Stacked(stack)| <= before
        decreases |Flatten(active) + Stacked(stack)|
      {
        ghost var pending := Flatten(active) + Stacked(stack);
        var current := active[0];
        active := active[1..];
        match current {
          case Nested(child) =>
            assert pending == [current] + (Flatten(child) + (Flatten(active) + Stacked(stack)));
            assert (stack + [active])[..|stack|] == stack;
            stack := stack + [active];
            active := child;
          case CoroutineItem =>
            return Failure(NotSupported);
          case Value =>
            assert pending == [current] + (Flatten(active) + Stacked(stack));
        }
        assert pending[1..] == Flatten(active) + Stacked(stack);
        step := step + 1;
        if step >= maxYields {
          return Success(false);
        }
      }
      assert Flatten(active) + Stacked(stack) == Stacked(stack);
    }
    return Success(true);
  }

  // ---------------------------------------------------------------------------
  // Properties of the drain

  /** Index of the first Coroutine among the yielded items, or their count. */
  function FirstCoroutine(ys: seq<Item>): (c: nat)
    ensures c <= |ys|
    decreases |ys|
  {
    if ys == [] then 0 else if ys[0].CoroutineItem? then 0 else 1 + FirstCoroutine(ys[1..])
  }

  /** The outcome in closed form. With n items and the first Coroutine at c, the drain
      returns false at the first step k with step + k + 1 >= maxYields, that is at
      f = max(maxYields - step - 1, 0), unless a Coroutine comes first or at that very
      step: it throws then, since the throw precedes the count. It returns true only
      when it runs out of items before f. */
  lemma {:induction false} DrainClosedForm(ys: seq<Item>, step: int, maxYields: int)
    ensures var n := |ys|;
      var c := FirstCoroutine(ys);
      var f := if maxYields - step - 1 > 0 then maxYields - step - 1 else 0;
      Drain(ys, step, maxYields) ==
        if c < n && c <= f then Failure(NotSupported)
        else if f < n then Success(false)
        else Success(true)
    decreases |ys|
  {
    if ys != [] && !ys[0].CoroutineItem? && step + 1 < maxYields {
      DrainClosedForm(ys[1..], step + 1, maxYields);
    }
  }

  /** The drain succeeds exactly when the whole tree yields no Coroutine and fewer
      items than the budget (or no item at all). */
  lemma SucceedsIffUnderBudget(e: seq<Item>, maxYields: int)
    ensures Drain(Flatten(e), 0, maxYields) == Success(true) <==>
      CoroutineItem !in Flatten(e) && (|Flatten(e)| == 0 || |Flatten(e)| < maxYields)
  {
    DrainClosedForm(Flatten(e), 0, maxYields);
    CoroutineIndex(Flatten(e));
  }

  /** A Coroutine is yielded iff the first one comes before the end. */
  lemma {:induction false} CoroutineIndex(ys: seq<Item>)
    ensures CoroutineItem in ys <==> FirstCoroutine(ys) < |ys|
    decreases |ys|
  {
    if ys != [] && ys[0] != CoroutineItem {
      assert CoroutineItem in ys <==> CoroutineItem in ys[1..];
      CoroutineIndex(ys[1..]);
    }
  }

  /** An enumerator that yields nothing succeeds whatever the budget. */
  lemma EmptyEnumeratorSucceeds(maxYields: int)
    ensures Drain(Flatten([]), 0, maxYields) == Success(true)
  {
  }

  /** With a budget of at most one step, any yield ends the drain: false, or the
      exception when the first item is a Coroutine. */
  lemma TinyBudgetStopsAtFirstYield(e: seq<Item>, maxYields: int)
    requires maxYields <= 1 && Flatten(e) != []
    ensures Drain(Flatten(e), 0, maxYields) ==
      if Flatten(e)[0].CoroutineItem? then Failure(NotSupported) else Success(false)
  {
  }

  /** Items are drained depth first: a nested enumerator is exhausted before its
      parent resumes. */
  lemma {:induction false} FlattenAppend(a: seq<Item>, b: seq<Item>)
    ensures Flatten(a + b) == Flatten(a) + Flatten(b)
    decreases |a|
  {
    if a == [] {
      assert a + b == b;
    } else {
      assert (a + b)[0] == a[0];
      assert (a + b)[1..] == a[1..] + b;
      FlattenAppend(a[1..], b);
    }
  }

  lemma {:induction false} ChildRunsBeforeParentResumes(pre: seq<Item>, children: seq<Item>, post: seq<Item>)
    ensures Flatten(pre + [Nested(children)] + post) ==
      Flatten(pre) + [Nested(children)] + Flatten(children) + Flatten(post)
  {
    var n := Nested(children);
    FlattenAppend(pre + [n], post);
    FlattenAppend(pre, [n]);
    assert [n][1..] == [];
    assert Flatten([n]) == [n] + Flatten(children);
  }
}
