/**
 The doubly linked FIFO whose nodes live in pool slots and carry their own
 links. The list header is a small value embedded in its owner; pushing and
 removing relink nodes in place. A list is proved against the sequence of
 slots that following `next` from the head visits.
 */
module IntrusiveList {
  import opened ObjectPool
  import opened Options

  datatype Node<+T> = Node(prev: Option<nat>, next: Option<nat>, value: T)

  datatype List = List(head: Option<nat>, tail: Option<nat>, size: nat)

  const EMPTY: List := List(None, None, 0)

  type Memory<T> = seq<Slot<Node<T>>>

  /** Slot `s` holds a node with these links. */
  ghost predicate LinkedAt<T>(mem: Memory<T>, s: nat, prev: Option<nat>, next: Option<nat>) {
    s < |mem| && mem[s].Live? && mem[s].value.prev == prev && mem[s].value.next == next
  }

  /** The `i`-th node of `q` points back to the one before it and on to the one after it. */
  ghost predicate InPlace<T>(mem: Memory<T>, q: seq<nat>, i: nat)
    requires i < |q|
  {
    LinkedAt(mem, q[i], Item(q, i - 1), Item(q, i + 1))
  }

  ghost predicate IsList<T>(mem: Memory<T>, list: List, q: seq<nat>) {
    && Distinct(q)
    && list == List(Item(q, 0), Item(q, |q| - 1), |q|)
    && forall i: nat :: i < |q| ==> InPlace(mem, q, i)
  }

  /** Relinking changed no object and moved none. */
  ghost predicate SameObjects<T>(mem: Memory<T>, mem': Memory<T>) {
    && |mem| == |mem'|
    && forall i :: 0 <= i < |mem| ==>
         if mem[i].Live? then mem'[i].Live? && mem'[i].value.value == mem[i].value.value else mem'[i] == mem[i]
  }

  ghost predicate SameOutside<T>(mem: Memory<T>, mem': Memory<T>, q: seq<nat>) {
    |mem| == |mem'| && forall i: nat :: i < |mem| && i !in q ==> mem'[i] == mem[i]
  }

  /** `q` without its `j`-th element. */
  function Without(q: seq<nat>, j: nat): seq<nat>
    requires j < |q|
  {
    q[..j] + q[j + 1..]
  }

  /** A list none of whose nodes were touched is still that list. */
  lemma FrameList<T>(mem: Memory<T>, mem': Memory<T>, list: List, q: seq<nat>)
    requires IsList(mem, list, q)
    requires |mem| == |mem'| && forall i: nat :: i < |mem| && i in q ==> mem'[i] == mem[i]
    ensures IsList(mem', list, q)
  {
    forall i: nat | i < |q|
      ensures InPlace(mem', q, i)
    {
      assert InPlace(mem, q, i);
    }
  }

  /** What appending `node` behind `tail` does to slot `i`. */
  function AppendSlot<T>(slot: Slot<Node<T>>, i: nat, tail: Option<nat>, node: nat): Slot<Node<T>> {
    if slot.Free? then slot
    else if i == node then Live(Node(tail, None, slot.value.value))
    else if tail == Some(i) then Live(slot.value.(next := Some(node)))
    else slot
  }

  /** What unlinking `node` from between `prev` and `next` does to slot `i`. */
  function UnlinkSlot<T>(slot: Slot<Node<T>>, i: nat, prev: Option<nat>, node: nat, next: Option<nat>): Slot<Node<T>> {
    if slot.Free? then slot
    else if i == node then Live(Node(None, None, slot.value.value))
    else if prev == Some(i) then Live(slot.value.(next := next))
    else if next == Some(i) then Live(slot.value.(prev := prev))
    else slot
  }

  ghost predicate Appended<T>(mem: Memory<T>, mem': Memory<T>, tail: Option<nat>, node: nat) {
    |mem| == |mem'| && forall i :: 0 <= i < |mem| ==> mem'[i] == AppendSlot(mem[i], i, tail, node)
  }

  ghost predicate Unlinked<T>(mem: Memory<T>, mem': Memory<T>, prev: Option<nat>, node: nat, next: Option<nat>) {
    |mem| == |mem'| && forall i :: 0 <= i < |mem| ==> mem'[i] == UnlinkSlot(mem[i], i, prev, node, next)
  }

  lemma AppendedIsList<T>(mem: Memory<T>, mem': Memory<T>, list: List, q: seq<nat>, node: nat)
    requires IsList(mem, list, q)
    requires node !in q && node < |mem| && mem[node].Live?
    requires Appended(mem, mem', list.tail, node)
    ensures IsList(mem', List(if list.tail.Some? then list.head else Some(node), Some(node), list.size + 1), q + [node])
    ensures SameObjects(mem, mem')
    ensures SameOutside(mem, mem', q + [node])
  {
    var q' := q + [node];
    DistinctAppend(q, node);
    forall i: nat | i < |q'|
      ensures InPlace(mem', q', i)
    {
      if i < |q| {
        assert InPlace(mem, q, i);
        assert q[i] in q;
        if i < |q| - 1 {
          DifferAt(q, i, |q| - 1);
        }
      }
    }
  }

  method PushBack<T>(mem: array<Slot<Node<T>>>, list: List, node: nat, ghost q: seq<nat>) returns (list': List)
    requires IsList(mem[..], list, q)
    requires node < mem.Length && mem[node].Live? && node !in q
    modifies mem
    ensures IsList(mem[..], list', q + [node])
    ensures SameObjects(old(mem[..]), mem[..])
    ensures SameOutside(old(mem[..]), mem[..], q + [node])
  {
    assert q != [] ==> InPlace(mem[..], q, |q| - 1);
    mem[node] := Live(mem[node].value.(prev := list.tail, next := None));
    if list.tail.Some? {
      var tail := list.tail.value;
      mem[tail] := Live(mem[tail].value.(next := Some(node)));
    }
    list' := List(if list.tail.Some? then list.head else Some(node), Some(node), list.size + 1);
    AppendedIsList(old(mem[..]), mem[..], list, q, node);
  }

  lemma ItemWithout(q: seq<nat>, j: nat, i: int)
    requires j < |q|
    ensures Item(Without(q, j), i) == Item(q, if i < j then i else i + 1)
  {
  }

  lemma DistinctWithout(q: seq<nat>, j: nat)
    requires j < |q| && Distinct(q)
    ensures Distinct(Without(q, j))
  {
    var q' := Without(q, j);
    forall i: nat, k: nat | i < k < |q'|
      ensures Differ(q', i, k)
    {
      DifferAt(q, if i < j then i else i + 1, if k < j then k else k + 1);
    }
  }

  lemma NeighboursDiffer(q: seq<nat>, j: nat)
    requires Distinct(q) && j < |q|
    ensures j > 0 ==> q[j - 1] != q[j]
    ensures j + 1 < |q| ==> q[j] != q[j + 1]
    ensures 0 < j < |q| - 1 ==> q[j - 1] != q[j + 1]
  {
    if j > 0 {
      DifferAt(q, j - 1, j);
    }
    if j + 1 < |q| {
      DifferAt(q, j, j + 1);
      if j > 0 {
        DifferAt(q, j - 1, j + 1);
      }
    }
  }

  /** The links of the node that was `k`-th, after the `j`-th was unlinked. */
  lemma UnlinkedAt<T>(mem: Memory<T>, mem': Memory<T>, list: List, q: seq<nat>, j: nat, k: nat)
    requires IsList(mem, list, q) && j < |q| && k < |q| && k != j
    requires Unlinked(mem, mem', Item(q, j - 1), q[j], Item(q, j + 1))
    ensures LinkedAt(mem', q[k], Item(q, if k == j + 1 then j - 1 else k - 1),
                     Item(q, if k + 1 == j then j + 1 else k + 1))
  {
    assert InPlace(mem, q, k);
    DifferAt(q, k, j);
    if j > 0 && k != j - 1 {
      DifferAt(q, k, j - 1);
    }
    if j + 1 < |q| && k != j + 1 {
      DifferAt(q, k, j + 1);
    }
    assert mem'[q[k]] == UnlinkSlot(mem[q[k]], q[k], Item(q, j - 1), q[j], Item(q, j + 1));
  }

  lemma UnlinkedIsList<T>(mem: Memory<T>, mem': Memory<T>, list: List, q: seq<nat>, j: nat)
    requires IsList(mem, list, q) && j < |q|
    requires Unlinked(mem, mem', Item(q, j - 1), q[j], Item(q, j + 1))
    ensures IsList(mem',
                   List(if j > 0 then list.head else Item(q, 1), if j + 1 < |q| then list.tail else Item(q, j - 1),
                        list.size - 1),
                   Without(q, j))
  {
    var q' := Without(q, j);
    DistinctWithout(q, j);
    forall i: nat | i < |q'|
      ensures InPlace(mem', q', i)
    {
      UnlinkedAt(mem, mem', list, q, j, if i < j then i else i + 1);
      ItemWithout(q, j, i - 1);
      ItemWithout(q, j, i + 1);
    }
    ItemWithout(q, j, 0);
    ItemWithout(q, j, |q'| - 1);
  }

  /** `node`, the `j`-th of the list, must currently be a member of it. */
  method Remove<T>(mem: array<Slot<Node<T>>>, list: List, node: nat, ghost q: seq<nat>, ghost j: nat)
      returns (list': List)
    requires IsList(mem[..], list, q)
    requires j < |q| && q[j] == node
    modifies mem
    ensures IsList(mem[..], list', Without(q, j))
    ensures SameObjects(old(mem[..]), mem[..])
    ensures SameOutside(old(mem[..]), mem[..], q)
  {
    assert InPlace(mem[..], q, j);
    assert j > 0 ==> InPlace(mem[..], q, j - 1);
    assert j + 1 < |q| ==> InPlace(mem[..], q, j + 1);
    NeighboursDiffer(q, j);
    var prev, next := mem[node].value.prev, mem[node].value.next;
    var head, tail := list.head, list.tail;
    if prev.Some? {
      mem[prev.value] := Live(mem[prev.value].value.(next := next));
    } else {
      head := next;
    }
    if next.Some? {
      mem[next.value] := Live(mem[next.value].value.(prev := prev));
    } else {
      tail := prev;
    }
    mem[node] := Live(mem[node].value.(prev := None, next := None));
    list' := List(head, tail, list.size - 1);
    UnlinkedIsList(old(mem[..]), mem[..], list, q, j);
  }
}
