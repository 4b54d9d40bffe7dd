/** ListExtensions: CopyFrom copies a native array into a list's backing array, first
    growing the capacity by doubling; IsNullOrEmpty. The list is modelled by its backing
    array (`items`, whose length is the capacity) and its size. Capacities and lengths
    are 32-bit signed integers; the doubling wraps around as C# int arithmetic does. */
module ListExtensions {

  const Int32Max: int := 0x7FFF_FFFF

  /** Two's-complement wrap-around of an integer into the 32-bit signed range. */
  function Wrap32(x: int): (r: int)
    ensures -0x8000_0000 <= r <= Int32Max
    ensures -0x8000_0000 <= x <= Int32Max ==> r == x
  {
    var m := (x + 0x8000_0000) % 0x1_0000_0000;
    m - 0x8000_0000
  }

  function Pow2(k: nat): (p: nat)
    ensures p >= 1
  {
    if k == 0 then 1 else 2 * Pow2(k - 1)
  }

  lemma Pow2Monotone(i: nat, j: nat)
    requires i <= j
    ensures Pow2(i) <= Pow2(j)
  {
    if i < j {
      Pow2Monotone(i, j - 1);
    }
  }

  lemma Pow2Of31()
    ensures Pow2(31) == 0x8000_0000
  {
    assert Pow2(8) == 0x100;
    assert Pow2(16) == 0x1_0000;
    assert Pow2(24) == 0x100_0000;
  }

  /** The capacity CopyFrom settles on for a list of capacity `start` and a source of
      length `len`: the start capacity when it is already large enough; the start
      capacity doubled the least number of times that reaches `len`; from capacity 0,
      the doubled `len - 1`; and 0 for an empty source into an empty list (the
      candidate -1 doubles down to the wrap-around at 0). */
  ghost predicate CapacityLaw(start: int, len: int, cap: int) {
    && (start >= len ==> cap == start)
    && (0 < start < len ==>
          exists k: nat :: k >= 1 && cap == start * Pow2(k) && start * Pow2(k - 1) < len <= cap)
    && (start == 0 && len >= 2 ==> cap == 2 * (len - 1))
  }

  /** Doubling a negative power of two: exact down to -2^31, which wraps to 0. */
  lemma NegativeDoubling(k: nat)
    requires k <= 31
    ensures Pow2(k + 1) == 2 * Pow2(k)
    ensures k < 31 ==> Wrap32(-(Pow2(k) as int) * 2) == -(Pow2(k + 1) as int)
    ensures k == 31 ==> Wrap32(-(Pow2(k) as int) * 2) == 0
  {
    Pow2Of31();
    if k < 31 {
      Pow2Monotone(k + 1, 31);
    }
  }

  /** Doubling a positive candidate still below a length of at most 2^30 is exact. */
  lemma PositiveDoubling(base: int, k: nat, len: int)
    requires base > 0 && base * Pow2(k) < len <= 0x4000_0000
    ensures 0 < base * Pow2(k) < base * Pow2(k + 1) <= Int32Max
    ensures Wrap32(base * Pow2(k) * 2) == base * Pow2(k + 1)
  {
    assert base * Pow2(k + 1) == 2 * (base * Pow2(k));
  }

  /** From capacity 0 the candidate `len - 1` needs exactly one doubling. */
  lemma OneDoublingFromZero(base: int, len: int, k: nat)
    requires len >= 2 && base == len - 1
    requires k >= 1 && base * Pow2(k - 1) < len
    ensures k == 1
  {
    if k >= 2 {
      Pow2Monotone(1, k - 1);
      assert false;
    }
  }

  /** What the doubling loop knows after k doublings of the first candidate `base`. */
  ghost predicate Doubling(start: int, len: int, base: int, k: nat, cap: int) {
    && 0 <= start <= Int32Max && 0 <= len <= 0x4000_0000 && !(start == 0 && len == 1)
    && base == (if start == 0 then len - 1 else start)
    && -0x8000_0000 <= cap <= Int32Max
    && (k == 0 ==> cap == base)
    && (k >= 1 ==> base < len)
    && (base > 0 ==> cap == base * Pow2(k) && (k >= 1 ==> base * Pow2(k - 1) < len))
    && (base < 0 ==> (cap < 0 ==> cap == -(Pow2(k) as int) && k <= 31) && (cap >= 0 ==> cap == 0))
  }

  /** The loop's variant: through the negative candidates up to the wrap-around at 0,
      then up towards `len`. */
  function DoublingVariant(cap: int, len: int): int {
    if cap < 0 then 0x1_8000_0000 + cap else len - cap
  }

  /** One doubling keeps what the loop knows and brings it closer to the end. */
  lemma DoublingStep(start: int, len: int, base: int, k: nat, cap: int)
    requires Doubling(start, len, base, k, cap) && cap < len
    ensures Doubling(start, len, base, k + 1, Wrap32(cap * 2))
    ensures 0 <= DoublingVariant(cap, len)
    ensures DoublingVariant(Wrap32(cap * 2), len) < DoublingVariant(cap, len)
  {
    if base < 0 {
      NegativeDoubling(k);
    } else {
      assert base != 0;
      PositiveDoubling(base, k, len);
    }
  }

  /** When the loop ends, the capacity obeys the law. */
  lemma DoublingDone(start: int, len: int, base: int, k: nat, cap: int)
    requires Doubling(start, len, base, k, cap) && cap >= len
    ensures CapacityLaw(start, len, cap) && cap >= start
  {
    if start == 0 && len >= 2 {
      OneDoublingFromZero(base, len, k);
      assert cap == base * 2;
    } else if 0 < start < len {
      assert k >= 1 && cap == start * Pow2(k) && start * Pow2(k - 1) < len <= cap;
    } else if start > 0 {
      assert k == 0;
    }
  }

  /** The doubling loop of CopyFrom. Capacity 0 with a source of length 1 never
      terminates (0 doubles to 0), and lengths above 2^30 can make the doubling
      overflow into the same cycle; both are excluded. */
  method DestinedCapacity(start: int, len: int) returns (cap: int)
    requires 0 <= start <= Int32Max && 0 <= len <= 0x4000_0000
    requires !(start == 0 && len == 1)
    ensures CapacityLaw(start, len, cap)
    ensures cap >= start && cap >= len
  {
    cap := if start == 0 then len - 1 else start;
    // The first candidate, which the loop doubles k times.
    ghost var base := cap;
    ghost var k: nat := 0;
    while cap < len
      invariant Doubling(start, len, base, k, cap)
      decreases DoublingVariant(cap, len)
    {
      DoublingStep(start, len, base, k, cap);
      cap := Wrap32(cap * 2);
      k := k + 1;
    }
    DoublingDone(start, len, base, k, cap);
  }

  class NativeList<T(0)> {
    /** The backing array (`_items`); its length is the capacity. */
    var items: array<T>
    /** The element count (`_size`). */
    var size: nat

    ghost predicate Valid()
      reads this
    {
      size <= items.Length
    }

    function Capacity(): nat
      reads this
    {
      items.Length
    }

    constructor (capacity: nat)
      ensures Valid() && size == 0 && items.Length == capacity && fresh(items)
    {
      items := new T[capacity];
      size := 0;
    }

    /** CopyFrom: grow the capacity if the doubling asks for more, then overwrite the
        size and the first `|source|` items with the source array. */
    method CopyFrom(source: seq<T>)
      requires Valid()
      requires |source| <= 0x4000_0000 && items.Length <= Int32Max
      requires !(items.Length == 0 && |source| == 1)
      modifies this, items
      ensures Valid()
      ensures CapacityLaw(old(items.Length), |source|, items.Length)
      ensures items.Length >= old(items.Length)
      ensures items.Length == old(items.Length) ==> items == old(items)
      ensures items.Length > old(items.Length) ==> fresh(items)
      ensures size == |source| && items[..size] == source
      ensures IsNullOrEmpty(this) <==> |source| == 0
    {
      var start := items.Length;
      var destined := DestinedCapacity(start, |source|);
      if destined > start {
        // The Capacity setter: a new backing array keeping the current items.
        var grown := new T[destined];
        forall i | 0 <= i < size {
          grown[i] := items[i];
        }
        items := grown;
      }
      size := |source|;
      forall i | 0 <= i < |source| {
        items[i] := source[i];
      }
    }
  }

  /** IsNullOrEmpty: a null list or one of count 0. */
  function IsNullOrEmpty<T(0)>(list: NativeList?<T>): bool
    reads list
  {
    list == null || list.size == 0
  }

  /** A list is null-or-empty exactly when it is null or holds no item. */
  lemma NullOrEmptyHoldsNoItem<T(0)>(list: NativeList?<T>)
    requires list != null ==> list.Valid()
    ensures IsNullOrEmpty(list) <==> list == null || list.items[..list.size] == []
  {
  }
}
