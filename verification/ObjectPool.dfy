/**
 The fixed-capacity object pool. Its free list is threaded through the unused
 slots themselves, so a slot holds either a live object or the next free index.
 Slot indices play the part of the pointers the pool hands out.
 */
module ObjectPool {
  import opened Options

  datatype Slot<+T> = Live(value: T) | Free(nextFree: Option<nat>)

  /** The `j`-th element of `q`, or nothing outside it. */
  function Item(q: seq<nat>, j: int): Option<nat> {
    if 0 <= j < |q| then Some(q[j]) else None
  }

  ghost predicate Differ(q: seq<nat>, i: nat, j: nat)
    requires i < |q| && j < |q|
  {
    q[i] != q[j]
  }

  ghost predicate Distinct(q: seq<nat>) {
    forall i: nat, j: nat :: i < j < |q| ==> Differ(q, i, j)
  }

  lemma DifferAt(q: seq<nat>, i: nat, j: nat)
    requires Distinct(q) && i < |q| && j < |q| && i != j
    ensures q[i] != q[j]
  {
    assert if i < j then Differ(q, i, j) else Differ(q, j, i);
  }

  /** A sequence is distinct exactly when its rest is and its first element is new. */
  lemma DistinctRest(q: seq<nat>)
    requires Distinct(q) && q != []
    ensures Distinct(q[1..]) && q[0] !in q[1..]
  {
    var rest := q[1..];
    forall i: nat, j: nat | i < j < |rest|
      ensures Differ(rest, i, j)
    {
      DifferAt(q, i + 1, j + 1);
    }
    forall k: nat | k < |rest|
      ensures rest[k] != q[0]
    {
      DifferAt(q, 0, k + 1);
    }
  }

  lemma DistinctAppend(q: seq<nat>, s: nat)
    requires Distinct(q) && s !in q
    ensures Distinct(q + [s])
  {
    var q' := q + [s];
    forall i: nat, j: nat | i < j < |q'|
      ensures Differ(q', i, j)
    {
      if j < |q| {
        DifferAt(q, i, j);
      }
    }
  }

  lemma DistinctCons(q: seq<nat>, s: nat)
    requires Distinct(q) && s !in q
    ensures Distinct([s] + q)
  {
    var q' := [s] + q;
    forall i: nat, j: nat | i < j < |q'|
      ensures Differ(q', i, j)
    {
      if i > 0 {
        DifferAt(q, i - 1, j - 1);
      }
    }
  }

  /** The `j`-th free slot names the one after it. */
  ghost predicate ChainAt<T>(slots: seq<Slot<T>>, free: seq<nat>, j: nat)
    requires j < |free|
  {
    free[j] < |slots| && slots[free[j]] == Free(Item(free, j + 1))
  }

  /** Following `nextFree` from `head` visits exactly `free`, in order, and stops. */
  ghost predicate Chain<T>(slots: seq<Slot<T>>, head: Option<nat>, free: seq<nat>) {
    && head == Item(free, 0)
    && forall j: nat :: j < |free| ==> ChainAt(slots, free, j)
  }

  /** The free list is acyclic and lists exactly the slots that were not handed out. */
  ghost predicate FreeListExact<T>(slots: seq<Slot<T>>, head: Option<nat>, free: seq<nat>) {
    && Distinct(free)
    && Chain(slots, head, free)
    && forall i :: 0 <= i < |slots| && slots[i].Free? ==> i in free
  }

  ghost function LiveSlots<T>(slots: seq<Slot<T>>): set<nat> {
    set i: nat | i < |slots| && slots[i].Live?
  }

  ghost function Members(q: seq<nat>): set<nat> {
    set i | i in q
  }

  lemma {:induction false} DistinctCount(q: seq<nat>)
    requires Distinct(q)
    ensures |Members(q)| == |q|
  {
    if q == [] {
      assert Members(q) == {};
    } else {
      DistinctRest(q);
      DistinctCount(q[1..]);
      assert q == [q[0]] + q[1..];
      assert Members(q) == {q[0]} + Members(q[1..]);
    }
  }

  ghost function Below(n: nat): (s: set<nat>)
    ensures |s| == n
    ensures forall i: nat :: i in s <==> i < n
  {
    if n == 0 then {} else Below(n - 1) + {n - 1}
  }

  /** Every slot is either owned once or on the free list once. */
  lemma OwnedPlusFree<T>(slots: seq<Slot<T>>, head: Option<nat>, free: seq<nat>)
    requires FreeListExact(slots, head, free)
    ensures |LiveSlots(slots)| + |free| == |slots|
  {
    DistinctCount(free);
    forall i | i in Members(free)
      ensures i in Below(|slots|) && i !in LiveSlots(slots)
    {
      var j: nat :| j < |free| && free[j] == i;
      assert ChainAt(slots, free, j);
    }
    assert LiveSlots(slots) + Members(free) == Below(|slots|);
  }

  /** Taking the head slot leaves an exact free list. */
  lemma AcquireKeepsExact<T>(slots: seq<Slot<T>>, head: Option<nat>, free: seq<nat>, value: T)
    requires FreeListExact(slots, head, free)
    requires head.Some?
    ensures free != [] && head.value < |slots| && slots[head.value].Free?
    ensures FreeListExact(slots[head.value := Live(value)], slots[head.value].nextFree, free[1..])
  {
    assert ChainAt(slots, free, 0);
    DistinctRest(free);
    var slots' := slots[head.value := Live(value)];
    forall j: nat | j < |free[1..]|
      ensures ChainAt(slots', free[1..], j)
    {
      assert ChainAt(slots, free, j + 1);
      assert free[1..][j] in free[1..];
    }
    forall i | 0 <= i < |slots'| && slots'[i].Free?
      ensures i in free[1..]
    {
      assert i in free && i != free[0];
    }
  }

  /** Giving a live slot back makes it the head of an exact free list. */
  lemma ReleaseKeepsExact<T>(slots: seq<Slot<T>>, head: Option<nat>, free: seq<nat>, slot: nat)
    requires FreeListExact(slots, head, free)
    requires slot < |slots| && slots[slot].Live?
    ensures FreeListExact(slots[slot := Free(head)], Some(slot), [slot] + free)
  {
    var slots' := slots[slot := Free(head)];
    var free' := [slot] + free;
    forall i | 0 <= i < |slots'| && slots'[i].Free?
      ensures i in free'
    {
      if i != slot {
        assert i in free;
      }
    }
    forall j: nat | j < |free'|
      ensures ChainAt(slots', free', j)
    {
      if j > 0 {
        assert ChainAt(slots, free, j - 1);
        assert Item(free', j + 1) == Item(free, j);
      }
    }
    forall j: nat | j < |free|
      ensures free[j] != slot
    {
      assert ChainAt(slots, free, j);
    }
    DistinctCons(free, slot);
  }

  /** The free list that the constructor threads through every slot in order. */
  lemma InitialExact<T>(slots: seq<Slot<T>>)
    requires forall i :: 0 <= i < |slots| ==> slots[i] == Free(if i + 1 < |slots| then Some(i + 1) else None)
    ensures FreeListExact(slots, if |slots| > 0 then Some(0) else None, seq(|slots|, i => i))
  {
    var free: seq<nat> := seq(|slots|, i => i);
    forall i | 0 <= i < |slots|
      ensures i in free
    {
      assert free[i] == i;
    }
  }

  /** Changing live objects in place does not disturb the free list. */
  lemma LiveWritesKeepExact<T>(slots: seq<Slot<T>>, slots': seq<Slot<T>>, head: Option<nat>, free: seq<nat>)
    requires FreeListExact(slots, head, free)
    requires |slots'| == |slots|
    requires forall i :: 0 <= i < |slots| ==> if slots[i].Live? then slots'[i].Live? else slots'[i] == slots[i]
    ensures FreeListExact(slots', head, free)
  {
    forall j: nat | j < |free|
      ensures ChainAt(slots', free, j)
    {
      assert ChainAt(slots, free, j);
    }
  }

  class ObjectPool<T> {
    const capacity: nat
    const slots: array<Slot<T>>
    var freeHead: Option<nat>
    var size: nat

    ghost var free: seq<nat>

    ghost predicate Valid()
      reads this, slots
    {
      && slots.Length == capacity
      && FreeListExact(slots[..], freeHead, free)
      && size + |free| == capacity
    }

    constructor (capacity: nat)
      ensures Valid() && fresh(slots)
      ensures this.capacity == capacity && size == 0
      ensures forall i :: 0 <= i < capacity ==> slots[i].Free?
    {
      this.capacity := capacity;
      slots := new Slot<T>[capacity](_ => Free(None));
      freeHead := if capacity > 0 then Some(0) else None;
      size := 0;
      free := seq(capacity, i => i);
      new;
      var i := 0;
      while i + 1 < capacity
        invariant 0 <= i && (i < capacity || i == 0)
        invariant fresh(slots) && slots.Length == capacity
        invariant freeHead == (if capacity > 0 then Some(0) else None) && size == 0 && free == seq(capacity, i => i)
        invariant forall k :: 0 <= k < capacity ==> slots[k] == Free(if k < i then Some(k + 1) else None)
      {
        slots[i] := Free(Some(i + 1));
        i := i + 1;
      }
      InitialExact(slots[..]);
    }

    /** Constructs an object in the head free slot, unless the pool is exhausted. */
    method Acquire(value: T) returns (slot: Option<nat>)
      requires Valid()
      modifies this, slots
      ensures Valid()
      ensures slot.None? <==> old(size) == capacity
      ensures slot.None? ==> size == old(size) && slots[..] == old(slots[..])
      ensures slot.Some? ==>
                && slot.value < capacity && old(slots[slot.value]).Free?
                && slots[..] == old(slots[..])[slot.value := Live(value)]
                && size == old(size) + 1
    {
      if freeHead.None? {
        return None;
      }
      ghost var before := slots[..];
      assert free != [] ==> ChainAt(before, free, 0);
      AcquireKeepsExact(before, freeHead, free, value);
      var index := freeHead.value;
      freeHead := slots[index].nextFree;
      slots[index] := Live(value);
      assert slots[..] == before[index := Live(value)];
      free := free[1..];
      size := size + 1;
      return Some(index);
    }

    /** `slot` must have been acquired and not yet released. */
    method Release(slot: nat)
      requires Valid()
      requires slot < slots.Length && slots[slot].Live?
      modifies this, slots
      ensures Valid()
      ensures slots[..] == old(slots[..])[slot := Free(old(freeHead))]
      ensures size == old(size) - 1
    {
      ghost var before := slots[..];
      OwnedPlusFree(before, freeHead, free);
      assert slot in LiveSlots(before);
      ReleaseKeepsExact(before, freeHead, free, slot);
      slots[slot] := Free(freeHead);
      assert slots[..] == before[slot := Free(freeHead)];
      freeHead := Some(slot);
      free := [slot] + free;
      size := size - 1;
    }

    /** The live count is the number of slots handed out. */
    lemma SizeIsLiveCount()
      requires Valid()
      ensures size == |LiveSlots(slots[..])|
    {
      OwnedPlusFree(slots[..], freeHead, free);
    }
  }
}
