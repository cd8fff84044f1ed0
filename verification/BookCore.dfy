/**
 The order book's linked representation as a value: pool memory, price levels,
 order index and the queue of slots of every (price, side). `Consistent` says
 that all of these describe one and the same sequence of live orders, and the
 lemmas say that adding, reducing and removing an order keep it so.
 */
module BookCore {
  import opened BookSpec
  import opened IntrusiveList
  import opened ItchTypes
  import opened ObjectPool
  import opened Options
  import opened Orders
  import opened Words

  /** Where a price's level lives: in the flat array, or in the map of outliers. */
  datatype LevelPtr = Flat(index: nat) | Outlier(price: Price4)

  datatype OrderData = OrderData(order: Resting, level: LevelPtr)

  type Mem = Memory<OrderData>

  /** All resting interest at one price: a FIFO and a 32-bit share counter a side. */
  datatype PriceLevel = PriceLevel(price: Price4, bids: List, asks: List, totalBid: Shares, totalAsk: Shares) {
    function Queue(isBuy: bool): List {
      if isBuy then bids else asks
    }

    function Total(isBuy: bool): Shares {
      if isBuy then totalBid else totalAsk
    }

    function With(isBuy: bool, queue: List, total: Shares): PriceLevel {
      if isBuy then this.(bids := queue, totalBid := total) else this.(asks := queue, totalAsk := total)
    }
  }

  function EmptyLevel(p: Price4): PriceLevel {
    PriceLevel(p, EMPTY, EMPTY, 0, 0)
  }

  /** The flat array around a reference price, and the outliers beyond it. */
  datatype Levels = Levels(reference: Price4, halfWidth: nat, flat: seq<PriceLevel>,
                           outliers: map<Price4, PriceLevel>)
  {
    predicate InWindow(p: Price4) {
      reference - halfWidth <= p <= reference + halfWidth
    }

    function Ptr(p: Price4): LevelPtr {
      if InWindow(p) then Flat(p - reference + halfWidth) else Outlier(p)
    }

    /** The `i`-th slot stands for a price that fits in 32 bits. */
    predicate Used(i: int) {
      0 <= reference + i - halfWidth < TWO_TO_32
    }

    /** Used slots have their own price; slots whose window sticks out of the price range stay empty. */
    ghost predicate Shape() {
      && |flat| == 2 * halfWidth + 1
      && (forall i :: 0 <= i < |flat| ==>
            if Used(i) then flat[i].price == reference + i - halfWidth else flat[i] == EmptyLevel(flat[i].price))
      && (forall p :: p in outliers ==> !InWindow(p) && outliers[p].price == p)
    }

    /** The level of price `p`; a price that never had an order has an empty one. */
    function At(p: Price4): PriceLevel
      requires |flat| == 2 * halfWidth + 1
    {
      if InWindow(p) then flat[p - reference + halfWidth]
      else if p in outliers then outliers[p]
      else EmptyLevel(p)
    }

    function Set(p: Price4, level: PriceLevel): Levels
      requires |flat| == 2 * halfWidth + 1
    {
      if InWindow(p) then this.(flat := flat[p - reference + halfWidth := level])
      else this.(outliers := outliers[p := level])
    }

    lemma SetAt(p: Price4, level: PriceLevel)
      requires Shape() && level.price == p
      ensures Set(p, level).Shape()
      ensures forall q :: Set(p, level).At(q) == if q == p then level else At(q)
      ensures forall q :: Set(p, level).Ptr(q) == Ptr(q)
    {
    }

    lemma AtHasPrice(p: Price4)
      requires Shape()
      ensures At(p).price == p
    {
    }
  }

  /** One side of one level is what and where it was. */
  ghost predicate SideKept(levels: Levels, levels': Levels, p: Price4, isBuy: bool) {
    && levels.Shape() && levels'.Shape()
    && levels'.Ptr(p) == levels.Ptr(p)
    && levels'.At(p).Queue(isBuy) == levels.At(p).Queue(isBuy)
    && levels'.At(p).Total(isBuy) == levels.At(p).Total(isBuy)
  }

  /** Writing one side of a level leaves every other side alone. */
  lemma SideSet(levels: Levels, p: Price4, isBuy: bool, queue: List, total: Shares)
    requires levels.Shape()
    ensures var levels' := levels.Set(p, levels.At(p).With(isBuy, queue, total));
            && levels'.Shape() && |levels'.flat| == 2 * levels'.halfWidth + 1
            && levels'.Ptr(p) == levels.Ptr(p)
            && levels'.At(p).Queue(isBuy) == queue && levels'.At(p).Total(isBuy) == total
            && forall q, b :: q != p || b != isBuy ==> SideKept(levels, levels', q, b)
  {
    levels.AtHasPrice(p);
    levels.SetAt(p, levels.At(p).With(isBuy, queue, total));
  }

  datatype Key = Key(price: Price4, isBuy: bool)

  datatype Core = Core(mem: Mem, levels: Levels, index: map<OrderRef, nat>, queues: map<Key, seq<nat>>,
                       live: seq<Resting>) {
    function Slots(p: Price4, isBuy: bool): seq<nat> {
      if Key(p, isBuy) in queues then queues[Key(p, isBuy)] else []
    }
  }

  function Refs(live: seq<Resting>): set<OrderRef> {
    set x | x in live :: x.ref
  }

  ghost predicate SlotHolds(mem: Mem, s: nat, x: Resting, ptr: LevelPtr) {
    s < |mem| && mem[s].Live? && mem[s].value.value == OrderData(x, ptr)
  }

  /** The `i`-th slot of `q` holds the `i`-th order, and the index leads to it. */
  ghost predicate HeldAt(mem: Mem, index: map<OrderRef, nat>, q: seq<nat>, orders: seq<Resting>, ptr: LevelPtr, i: nat)
    requires i < |q| == |orders|
  {
    SlotHolds(mem, q[i], orders[i], ptr) && orders[i].ref in index && index[orders[i].ref] == q[i]
  }

  /** The slots of `q` hold the given orders in order, point back to their level, and are indexed. */
  ghost predicate QueueHolds(mem: Mem, index: map<OrderRef, nat>, q: seq<nat>, orders: seq<Resting>, ptr: LevelPtr) {
    && |q| == |orders|
    && forall i: nat :: i < |q| ==> HeldAt(mem, index, q, orders, ptr, i)
  }

  /** A linked FIFO, its slots' contents and its share counter all agree with the given orders. */
  ghost predicate SideHolds(mem: Mem, index: map<OrderRef, nat>, list: List, total: Shares, q: seq<nat>,
                            orders: seq<Resting>, ptr: LevelPtr)
  {
    && IsList(mem, list, q)
    && QueueHolds(mem, index, q, orders, ptr)
    && total == Wrap32(Sum(orders))
  }

  /** One side of one level agrees with the live orders. */
  ghost predicate LevelHolds(c: Core, p: Price4, isBuy: bool)
    requires c.levels.Shape()
  {
    SideHolds(c.mem, c.index, c.levels.At(p).Queue(isBuy), c.levels.At(p).Total(isBuy),
              c.Slots(p, isBuy), Queue(c.live, p, isBuy), c.levels.Ptr(p))
  }

  ghost predicate Consistent(c: Core) {
    && c.levels.Shape()
    && c.index.Keys == Refs(c.live)
    && DistinctRefs(c.live)
    && forall p: Price4, isBuy: bool :: LevelHolds(c, p, isBuy)
  }

  /** What consistency says about each part on its own. */
  lemma ConsistentParts(c: Core)
    requires Consistent(c)
    ensures c.levels.Shape() && |c.levels.flat| == 2 * c.levels.halfWidth + 1
    ensures c.index.Keys == Refs(c.live) && DistinctRefs(c.live)
  {
  }

  lemma LevelParts(c: Core, p: Price4, isBuy: bool)
    requires Consistent(c)
    ensures |c.levels.flat| == 2 * c.levels.halfWidth + 1
    ensures IsList(c.mem, c.levels.At(p).Queue(isBuy), c.Slots(p, isBuy)) && Distinct(c.Slots(p, isBuy))
    ensures Queue(c.live, p, isBuy) != [] || c.Slots(p, isBuy) != [] ==> c.levels.InWindow(p) || p in c.levels.outliers
  {
    assert LevelHolds(c, p, isBuy);
  }

  /** The `i`-th node of a level's queue: the order it holds, and where its `next` leads. */
  lemma QueueNode(c: Core, p: Price4, isBuy: bool, i: nat)
    requires Consistent(c) && i < |c.Slots(p, isBuy)|
    ensures |c.Slots(p, isBuy)| == |Queue(c.live, p, isBuy)|
    ensures var s := c.Slots(p, isBuy)[i];
            && s < |c.mem| && c.mem[s].Live?
            && c.mem[s].value.value.order == Queue(c.live, p, isBuy)[i]
            && c.mem[s].value.next == Item(c.Slots(p, isBuy), i + 1)
  {
    assert LevelHolds(c, p, isBuy);
    assert HeldAt(c.mem, c.index, c.Slots(p, isBuy), Queue(c.live, p, isBuy), c.levels.Ptr(p), i);
    assert InPlace(c.mem, c.Slots(p, isBuy), i);
  }

  lemma QueueHead(c: Core, p: Price4, isBuy: bool)
    requires Consistent(c)
    ensures c.levels.At(p).Queue(isBuy).head == Item(c.Slots(p, isBuy), 0)
    ensures |c.Slots(p, isBuy)| == |Queue(c.live, p, isBuy)|
  {
    assert LevelHolds(c, p, isBuy);
  }

  /** Every flat slot has its price for good, wrapped to 32 bits where the window sticks out, and is empty. */
  ghost predicate FreshLevels(flat: seq<PriceLevel>, reference: Price4, halfWidth: nat) {
    && |flat| == 2 * halfWidth + 1
    && forall i :: 0 <= i < |flat| ==> flat[i] == EmptyLevel(Wrap32(reference + i - halfWidth))
  }

  /** A fresh book is consistent. */
  lemma FreshConsistent(c: Core)
    requires c.index == map[] && c.queues == map[] && c.live == [] && c.levels.outliers == map[]
    requires FreshLevels(c.levels.flat, c.levels.reference, c.levels.halfWidth)
    ensures Consistent(c)
  {
    forall p: Price4, isBuy: bool
      ensures LevelHolds(c, p, isBuy)
    {
      assert Queue([], p, isBuy) == [];
    }
  }

  /** The index leads to the slot holding the order, at a known place in its level's queue. */
  lemma IndexedSlot(c: Core, x: Resting) returns (j: nat)
    requires Consistent(c) && x in c.live
    ensures x.ref in c.index
    ensures j < |c.Slots(x.price, x.isBuy)| == |Queue(c.live, x.price, x.isBuy)|
    ensures c.Slots(x.price, x.isBuy)[j] == c.index[x.ref] && Queue(c.live, x.price, x.isBuy)[j] == x
    ensures SlotHolds(c.mem, c.index[x.ref], x, c.levels.Ptr(x.price))
  {
    assert LevelHolds(c, x.price, x.isBuy);
    FilterMembers(c.live, AtLevel(x.price, x.isBuy));
    j :| 0 <= j < |Queue(c.live, x.price, x.isBuy)| && Queue(c.live, x.price, x.isBuy)[j] == x;
    assert HeldAt(c.mem, c.index, c.Slots(x.price, x.isBuy), Queue(c.live, x.price, x.isBuy), c.levels.Ptr(x.price), j);
  }

  /** A level whose queue keeps all its slots' contents and links still holds. */
  lemma LevelUntouched(c: Core, c': Core, p: Price4, isBuy: bool)
    requires c.levels.Shape() && c'.levels.Shape() && LevelHolds(c, p, isBuy)
    requires |c'.mem| == |c.mem|
    requires forall s: nat :: s < |c.mem| && s in c.Slots(p, isBuy) ==> c'.mem[s] == c.mem[s]
    requires c'.Slots(p, isBuy) == c.Slots(p, isBuy)
    requires Queue(c'.live, p, isBuy) == Queue(c.live, p, isBuy)
    requires c'.levels.At(p).Queue(isBuy) == c.levels.At(p).Queue(isBuy)
    requires c'.levels.At(p).Total(isBuy) == c.levels.At(p).Total(isBuy)
    requires c'.levels.Ptr(p) == c.levels.Ptr(p)
    requires forall x :: x in Queue(c.live, p, isBuy) && x.ref in c.index ==>
                           x.ref in c'.index && c'.index[x.ref] == c.index[x.ref]
    ensures LevelHolds(c', p, isBuy)
  {
    var q, orders := c.Slots(p, isBuy), Queue(c.live, p, isBuy);
    FrameList(c.mem, c'.mem, c.levels.At(p).Queue(isBuy), q);
    forall i: nat | i < |q|
      ensures HeldAt(c'.mem, c'.index, q, orders, c.levels.Ptr(p), i)
    {
      assert HeldAt(c.mem, c.index, q, orders, c.levels.Ptr(p), i);
      assert orders[i] in orders;
    }
  }

  /** Queues of different keys share no slot: a slot's order says which queue it is in. */
  lemma OtherQueueElsewhere(c: Core, p: Price4, isBuy: bool, p2: Price4, isBuy2: bool, s: nat)
    requires Consistent(c)
    requires s in c.Slots(p, isBuy) && s in c.Slots(p2, isBuy2)
    ensures p == p2 && isBuy == isBuy2
  {
    assert LevelHolds(c, p, isBuy) && LevelHolds(c, p2, isBuy2);
    var i: nat :| i < |c.Slots(p, isBuy)| && c.Slots(p, isBuy)[i] == s;
    var j: nat :| j < |c.Slots(p2, isBuy2)| && c.Slots(p2, isBuy2)[j] == s;
    var x, y := Queue(c.live, p, isBuy)[i], Queue(c.live, p2, isBuy2)[j];
    assert HeldAt(c.mem, c.index, c.Slots(p, isBuy), Queue(c.live, p, isBuy), c.levels.Ptr(p), i);
    assert HeldAt(c.mem, c.index, c.Slots(p2, isBuy2), Queue(c.live, p2, isBuy2), c.levels.Ptr(p2), j);
    FilterMembers(c.live, AtLevel(p, isBuy));
    FilterMembers(c.live, AtLevel(p2, isBuy2));
    assert x in Queue(c.live, p, isBuy) && y in Queue(c.live, p2, isBuy2);
  }

  lemma QueueSlotsLive(c: Core, p: Price4, isBuy: bool, s: nat)
    requires Consistent(c) && s in c.Slots(p, isBuy)
    ensures s < |c.mem| && c.mem[s].Live?
  {
    assert LevelHolds(c, p, isBuy);
    var i: nat :| i < |c.Slots(p, isBuy)| && c.Slots(p, isBuy)[i] == s;
    assert HeldAt(c.mem, c.index, c.Slots(p, isBuy), Queue(c.live, p, isBuy), c.levels.Ptr(p), i);
  }

  /** Every live slot except `but` still holds the same object. */
  ghost predicate KeepsObjects(mem: Mem, mem': Mem, but: nat) {
    && |mem'| == |mem|
    && forall s: nat :: s < |mem| && s != but && mem[s].Live? ==>
         mem'[s].Live? && mem'[s].value.value == mem[s].value.value
  }

  lemma RefsInQueueDiffer(c: Core, x: Resting, p: Price4, isBuy: bool)
    requires DistinctRefs(c.live) && x in c.live && (p != x.price || isBuy != x.isBuy)
    ensures forall y :: y in Queue(c.live, p, isBuy) ==> y.ref != x.ref
  {
    FilterMembers(c.live, AtLevel(p, isBuy));
    forall y | y in Queue(c.live, p, isBuy)
      ensures y.ref != x.ref
    {
      if y.ref == x.ref {
        SameRefSameOrder(c.live, x, y);
      }
    }
  }

  // ----- adding -----

  lemma QueueHoldsAppend(mem: Mem, mem': Mem, index: map<OrderRef, nat>, q: seq<nat>, orders: seq<Resting>,
                         ptr: LevelPtr, x: Resting, slot: nat)
    requires QueueHolds(mem, index, q, orders, ptr)
    requires x.ref !in index && slot !in q
    requires KeepsObjects(mem, mem', slot) && SlotHolds(mem', slot, x, ptr)
    ensures QueueHolds(mem', index[x.ref := slot], q + [slot], orders + [x], ptr)
  {
    var q', orders' := q + [slot], orders + [x];
    var index' := index[x.ref := slot];
    forall i: nat | i < |q'|
      ensures HeldAt(mem', index', q', orders', ptr, i)
    {
      if i < |q| {
        assert HeldAt(mem, index, q, orders, ptr, i);
        assert q[i] in q;
      }
    }
  }

  lemma AppendHolds(mem: Mem, mem': Mem, index: map<OrderRef, nat>, list: List, list': List, total: Shares,
                    q: seq<nat>, orders: seq<Resting>, ptr: LevelPtr, x: Resting, slot: nat)
    requires SideHolds(mem, index, list, total, q, orders, ptr)
    requires x.ref !in index && slot !in q
    requires KeepsObjects(mem, mem', slot) && SlotHolds(mem', slot, x, ptr)
    requires IsList(mem', list', q + [slot])
    ensures SideHolds(mem', index[x.ref := slot], list', Wrap32(total + x.shares), q + [slot], orders + [x], ptr)
  {
    QueueHoldsAppend(mem, mem', index, q, orders, ptr, x, slot);
    SumAppend(orders, x);
    WrapStep(Sum(orders), x.shares, Sum(orders + [x]));
  }

  /** `c'` is `c` with `x` stored in a formerly free slot and pushed to the back of its queue. */
  ghost predicate Added(c: Core, c': Core, x: Resting, slot: nat, queue: List)
    requires c.levels.Shape()
  {
    var q := c.Slots(x.price, x.isBuy);
    var level := c.levels.At(x.price);
    && slot < |c.mem| && c.mem[slot].Free?
    && SlotHolds(c'.mem, slot, x, c.levels.Ptr(x.price))
    && KeepsObjects(c.mem, c'.mem, slot)
    && SameOutside(c.mem, c'.mem, q + [slot])
    && IsList(c'.mem, queue, q + [slot])
    && c'.levels == c.levels.Set(x.price, level.With(x.isBuy, queue, Wrap32(level.Total(x.isBuy) + x.shares)))
    && c'.index == c.index[x.ref := slot]
    && c'.queues == c.queues[Key(x.price, x.isBuy) := q + [slot]]
    && c'.live == c.live + [x]
  }

  /** Before the push, the new order's slot is outside the queue it will join, which is still that list. */
  lemma QueueBeforePush(c: Core, mem: Mem, x: Resting, slot: nat)
    requires Consistent(c) && slot < |c.mem| && c.mem[slot].Free?
    requires mem == c.mem[slot := Live(Node(None, None, OrderData(x, c.levels.Ptr(x.price))))]
    ensures IsList(mem, c.levels.At(x.price).Queue(x.isBuy), c.Slots(x.price, x.isBuy))
    ensures slot !in c.Slots(x.price, x.isBuy)
  {
    assert LevelHolds(c, x.price, x.isBuy);
    if slot in c.Slots(x.price, x.isBuy) {
      QueueSlotsLive(c, x.price, x.isBuy, slot);
    }
    FrameList(c.mem, mem, c.levels.At(x.price).Queue(x.isBuy), c.Slots(x.price, x.isBuy));
  }

  lemma PushedObjects(mem: Mem, mem1: Mem, mem2: Mem, slot: nat, x: Resting, ptr: LevelPtr, q: seq<nat>)
    requires slot < |mem| && mem[slot].Free?
    requires mem1 == mem[slot := Live(Node(None, None, OrderData(x, ptr)))]
    requires SameObjects(mem1, mem2) && SameOutside(mem1, mem2, q + [slot])
    ensures SlotHolds(mem2, slot, x, ptr) && KeepsObjects(mem, mem2, slot) && SameOutside(mem, mem2, q + [slot])
    ensures forall i :: 0 <= i < |mem1| ==> if mem1[i].Live? then mem2[i].Live? else mem2[i] == mem1[i]
  {
    assert slot in q + [slot];
  }

  lemma AddedOwnLevel(c: Core, c': Core, x: Resting, slot: nat, queue: List)
    requires Consistent(c) && x.ref !in c.index
    requires Added(c, c', x, slot, queue)
    ensures SideHolds(c'.mem, c'.index, queue, Wrap32(c.levels.At(x.price).Total(x.isBuy) + x.shares),
                      c'.Slots(x.price, x.isBuy), Queue(c'.live, x.price, x.isBuy), c.levels.Ptr(x.price))
  {
    hide Filter, Sum, WithShares, Distinct, DistinctRefs;
    assert LevelHolds(c, x.price, x.isBuy);
    if slot in c.Slots(x.price, x.isBuy) {
      QueueSlotsLive(c, x.price, x.isBuy, slot);
    }
    FilterAppend(c.live, x, AtLevel(x.price, x.isBuy));
    AppendHolds(c.mem, c'.mem, c.index, c.levels.At(x.price).Queue(x.isBuy), queue, c.levels.At(x.price).Total(x.isBuy),
                c.Slots(x.price, x.isBuy), Queue(c.live, x.price, x.isBuy), c.levels.Ptr(x.price), x, slot);
  }

  lemma AddedOtherLevel(c: Core, c': Core, x: Resting, slot: nat, queue: List, p: Price4, isBuy: bool)
    requires Consistent(c) && x.ref !in c.index
    requires Added(c, c', x, slot, queue)
    requires p != x.price || isBuy != x.isBuy
    requires SideKept(c.levels, c'.levels, p, isBuy)
    ensures LevelHolds(c', p, isBuy)
  {
    hide Filter, Sum, WithShares, Distinct, DistinctRefs;
    assert LevelHolds(c, p, isBuy);
    FilterAppend(c.live, x, AtLevel(p, isBuy));
    forall s: nat | s < |c.mem| && s in c.Slots(p, isBuy)
      ensures c'.mem[s] == c.mem[s]
    {
      QueueSlotsLive(c, p, isBuy, s);
      if s in c.Slots(x.price, x.isBuy) {
        OtherQueueElsewhere(c, p, isBuy, x.price, x.isBuy, s);
      }
    }
    LevelUntouched(c, c', p, isBuy);
  }

  lemma AddedConsistent(c: Core, c': Core, x: Resting, slot: nat, queue: List)
    requires Consistent(c) && x.ref !in c.index
    requires Added(c, c', x, slot, queue)
    ensures Consistent(c')
  {
    hide Filter, Sum, WithShares, Distinct, DistinctRefs, IsList, QueueHolds, KeepsObjects, SameOutside, Wrap32,
      SideHolds, SideKept, Levels.Shape, Levels.Set, Levels.At, Levels.Ptr, Core.Slots;
    ConsistentParts(c);
    SideSet(c.levels, x.price, x.isBuy, queue, Wrap32(c.levels.At(x.price).Total(x.isBuy) + x.shares));
    AddedOwnLevel(c, c', x, slot, queue);
    forall p: Price4, isBuy: bool | p != x.price || isBuy != x.isBuy
      ensures LevelHolds(c', p, isBuy)
    {
      AddedOtherLevel(c, c', x, slot, queue, p, isBuy);
    }
    RefsAppend(c.live, x);
  }

  lemma RefsAppend(live: seq<Resting>, x: Resting)
    requires DistinctRefs(live) && x.ref !in Refs(live)
    ensures DistinctRefs(live + [x])
    ensures Refs(live + [x]) == Refs(live) + {x.ref}
  {
    Orders.DistinctAppend(live, x);
    assert forall y :: y in live + [x] <==> y in live || y == x;
  }

  // ----- reducing in place -----

  lemma QueueHoldsReduce(mem: Mem, index: map<OrderRef, nat>, q: seq<nat>, orders: seq<Resting>, ptr: LevelPtr,
                         j: nat, n: Shares)
    requires QueueHolds(mem, index, q, orders, ptr)
    requires DistinctRefs(orders) && Distinct(q) && j < |q|
    requires SlotHolds(mem, q[j], orders[j], ptr)
    ensures QueueHolds(mem[q[j] := Live(mem[q[j]].value.(value := OrderData(orders[j].(shares := n), ptr)))],
                       index, q, WithShares(orders, orders[j].ref, n), ptr)
  {
    var mem' := mem[q[j] := Live(mem[q[j]].value.(value := OrderData(orders[j].(shares := n), ptr)))];
    var orders' := WithShares(orders, orders[j].ref, n);
    forall i: nat | i < |q|
      ensures HeldAt(mem', index, q, orders', ptr, i)
    {
      assert HeldAt(mem, index, q, orders, ptr, i);
      WithSharesAt(orders, orders[j].ref, n, i);
      if i != j {
        DifferAt(q, i, j);
        RefsDifferAt(orders, i, j);
      }
    }
  }

  lemma ReduceHolds(mem: Mem, index: map<OrderRef, nat>, list: List, total: Shares,
                    q: seq<nat>, orders: seq<Resting>, ptr: LevelPtr, j: nat, n: Shares)
    requires SideHolds(mem, index, list, total, q, orders, ptr)
    requires DistinctRefs(orders) && j < |q|
    requires SlotHolds(mem, q[j], orders[j], ptr)
    ensures SideHolds(mem[q[j] := Live(mem[q[j]].value.(value := OrderData(orders[j].(shares := n), ptr)))],
                      index, list, Wrap32(total + (n - orders[j].shares)), q, WithShares(orders, orders[j].ref, n), ptr)
  {
    var mem' := mem[q[j] := Live(mem[q[j]].value.(value := OrderData(orders[j].(shares := n), ptr)))];
    QueueHoldsReduce(mem, index, q, orders, ptr, j, n);
    SameLinksList(mem, mem', list, q);
    assert orders[j] in orders;
    SumWithShares(orders, orders[j], n);
    WrapStep(Sum(orders), n - orders[j].shares, Sum(WithShares(orders, orders[j].ref, n)));
  }

  /** `c'` is `c` with order `x` left with `n` shares in its slot. */
  ghost predicate Reduced(c: Core, c': Core, x: Resting, slot: nat, n: Shares)
    requires c.levels.Shape()
  {
    var level := c.levels.At(x.price);
    && slot < |c.mem| && c.mem[slot].Live?
    && c'.mem == c.mem[slot := Live(c.mem[slot].value.(value := OrderData(x.(shares := n), c.levels.Ptr(x.price))))]
    && c'.levels
       == c.levels.Set(x.price,
                       level.With(x.isBuy, level.Queue(x.isBuy), Wrap32(level.Total(x.isBuy) + (n - x.shares))))
    && c'.index == c.index
    && c'.queues == c.queues
    && c'.live == WithShares(c.live, x.ref, n)
  }

  lemma SameLinksList(mem: Mem, mem': Mem, list: List, q: seq<nat>)
    requires IsList(mem, list, q)
    requires |mem'| == |mem|
    requires forall s: nat :: s < |mem| && mem[s].Live? ==>
               mem'[s].Live? && mem'[s].value.prev == mem[s].value.prev && mem'[s].value.next == mem[s].value.next
    ensures IsList(mem', list, q)
  {
    forall i: nat | i < |q|
      ensures InPlace(mem', q, i)
    {
      assert InPlace(mem, q, i);
    }
  }

  lemma ReducedOwnLevel(c: Core, c': Core, x: Resting, slot: nat, n: Shares)
    requires Consistent(c) && x in c.live && x.ref in c.index && c.index[x.ref] == slot
    requires Reduced(c, c', x, slot, n)
    ensures SideHolds(c'.mem, c'.index, c.levels.At(x.price).Queue(x.isBuy),
                      Wrap32(c.levels.At(x.price).Total(x.isBuy) + (n - x.shares)),
                      c'.Slots(x.price, x.isBuy), Queue(c'.live, x.price, x.isBuy), c.levels.Ptr(x.price))
  {
    hide Filter, Sum, WithShares, Distinct, DistinctRefs;
    assert LevelHolds(c, x.price, x.isBuy);
    var j := IndexedSlot(c, x);
    FilterDistinct(c.live, AtLevel(x.price, x.isBuy));
    FilterWithShares(c.live, x.ref, n, AtLevel(x.price, x.isBuy));
    ReduceHolds(c.mem, c.index, c.levels.At(x.price).Queue(x.isBuy), c.levels.At(x.price).Total(x.isBuy),
                c.Slots(x.price, x.isBuy), Queue(c.live, x.price, x.isBuy), c.levels.Ptr(x.price), j, n);
  }

  lemma ReducedOtherLevel(c: Core, c': Core, x: Resting, slot: nat, n: Shares, p: Price4, isBuy: bool)
    requires Consistent(c) && x in c.live && x.ref in c.index && c.index[x.ref] == slot
    requires Reduced(c, c', x, slot, n)
    requires p != x.price || isBuy != x.isBuy
    requires SideKept(c.levels, c'.levels, p, isBuy)
    ensures LevelHolds(c', p, isBuy)
  {
    hide Filter, Sum, WithShares, Distinct, DistinctRefs;
    assert LevelHolds(c, p, isBuy);
    var j := IndexedSlot(c, x);
    FilterWithShares(c.live, x.ref, n, AtLevel(p, isBuy));
    RefsInQueueDiffer(c, x, p, isBuy);
    WithSharesAbsent(Queue(c.live, p, isBuy), x.ref, n);
    if slot in c.Slots(p, isBuy) {
      OtherQueueElsewhere(c, p, isBuy, x.price, x.isBuy, slot);
    }
    LevelUntouched(c, c', p, isBuy);
  }

  lemma ReducedConsistent(c: Core, c': Core, x: Resting, slot: nat, n: Shares)
    requires Consistent(c) && x in c.live && x.ref in c.index && c.index[x.ref] == slot && n <= x.shares
    requires Reduced(c, c', x, slot, n)
    ensures Consistent(c')
  {
    hide Filter, Sum, WithShares, Distinct, DistinctRefs, IsList, QueueHolds, KeepsObjects, SameOutside, Wrap32,
      SideHolds, SideKept, Levels.Shape, Levels.Set, Levels.At, Levels.Ptr, Core.Slots;
    ConsistentParts(c);
    SideSet(c.levels, x.price, x.isBuy, c.levels.At(x.price).Queue(x.isBuy),
            Wrap32(c.levels.At(x.price).Total(x.isBuy) + (n - x.shares)));
    ReducedOwnLevel(c, c', x, slot, n);
    forall p: Price4, isBuy: bool | p != x.price || isBuy != x.isBuy
      ensures LevelHolds(c', p, isBuy)
    {
      ReducedOtherLevel(c, c', x, slot, n, p, isBuy);
    }
    RefsWithShares(c.live, x.ref, n);
  }

  lemma RefsWithShares(live: seq<Resting>, ref: OrderRef, n: Shares)
    ensures Refs(WithShares(live, ref, n)) == Refs(live)
    ensures DistinctRefs(live) ==> DistinctRefs(WithShares(live, ref, n))
  {
    if DistinctRefs(live) {
      DistinctWithShares(live, ref, n);
    }
    WithSharesMembers(live, ref, n);
    forall y | y in live
      ensures y.ref in Refs(WithShares(live, ref, n))
    {
      assert Left(y, ref, n) in WithShares(live, ref, n);
    }
  }

  // ----- removing -----

  lemma QueueHoldsWithout(mem: Mem, mem': Mem, index: map<OrderRef, nat>, q: seq<nat>, orders: seq<Resting>,
                          ptr: LevelPtr, j: nat)
    requires QueueHolds(mem, index, q, orders, ptr)
    requires DistinctRefs(orders) && Distinct(q) && j < |q|
    requires KeepsObjects(mem, mem', q[j])
    ensures QueueHolds(mem', index - {orders[j].ref}, Without(q, j), orders[..j] + orders[j + 1..], ptr)
  {
    var q', orders' := Without(q, j), orders[..j] + orders[j + 1..];
    var index' := index - {orders[j].ref};
    forall i: nat | i < |q'|
      ensures HeldAt(mem', index', q', orders', ptr, i)
    {
      var k := if i < j then i else i + 1;
      assert q'[i] == q[k] && orders'[i] == orders[k];
      assert HeldAt(mem, index, q, orders, ptr, k);
      DifferAt(q, k, j);
      RefsDifferAt(orders, k, j);
    }
  }

  lemma WithoutHolds(mem: Mem, mem': Mem, index: map<OrderRef, nat>, list: List, list': List, total: Shares,
                     q: seq<nat>, orders: seq<Resting>, ptr: LevelPtr, j: nat)
    requires SideHolds(mem, index, list, total, q, orders, ptr)
    requires DistinctRefs(orders) && j < |q|
    requires KeepsObjects(mem, mem', q[j])
    requires IsList(mem', list', Without(q, j))
    ensures SideHolds(mem', index - {orders[j].ref}, list', Wrap32(total + -(orders[j].shares as int)),
                      Without(q, j), Filter(orders, NotRef(orders[j].ref)), ptr)
  {
    QueueHoldsWithout(mem, mem', index, q, orders, ptr, j);
    FilterNotRefAt(orders, j);
    assert orders[j] in orders;
    SumRemove(orders, orders[j]);
    WrapStep(Sum(orders), -(orders[j].shares as int), Sum(Filter(orders, NotRef(orders[j].ref))));
  }

  /** `c'` is `c` with order `x`, the `j`-th of its queue, unlinked, unindexed and its slot given back. */
  ghost predicate Removed(c: Core, c': Core, x: Resting, j: nat, queue: List)
    requires c.levels.Shape()
  {
    var q := c.Slots(x.price, x.isBuy);
    var level := c.levels.At(x.price);
    && j < |q| && q[j] < |c.mem|
    && KeepsObjects(c.mem, c'.mem, q[j])
    && SameOutside(c.mem, c'.mem, q)
    && IsList(c'.mem, queue, Without(q, j))
    && c'.levels == c.levels.Set(x.price, level.With(x.isBuy, queue, Wrap32(level.Total(x.isBuy) + -(x.shares as int))))
    && c'.index == c.index - {x.ref}
    && c'.queues == c.queues[Key(x.price, x.isBuy) := Without(q, j)]
    && c'.live == Filter(c.live, NotRef(x.ref))
  }

  /** Giving the unlinked slot back leaves the rest of its queue as it was. */
  lemma ReleasedObjects(mem: Mem, mem1: Mem, mem2: Mem, list: List, q: seq<nat>, j: nat, next: Option<nat>)
    requires j < |q| && q[j] < |mem| && Distinct(q)
    requires SameObjects(mem, mem1) && SameOutside(mem, mem1, q)
    requires IsList(mem1, list, Without(q, j))
    requires mem2 == mem1[q[j] := Free(next)]
    ensures KeepsObjects(mem, mem2, q[j]) && SameOutside(mem, mem2, q) && IsList(mem2, list, Without(q, j))
  {
    var q' := Without(q, j);
    forall i: nat | i < |q'|
      ensures q'[i] != q[j]
    {
      DifferAt(q, if i < j then i else i + 1, j);
    }
    FrameList(mem1, mem2, list, q');
  }

  /** A level's list is empty exactly when it has no live orders. */
  lemma ListEmptyIffQueueEmpty(c: Core, p: Price4, isBuy: bool)
    requires Consistent(c)
    ensures c.levels.At(p).Queue(isBuy).head.None? <==> Queue(c.live, p, isBuy) == []
  {
    assert LevelHolds(c, p, isBuy);
  }

  lemma RemovedOwnLevel(c: Core, c': Core, x: Resting, j: nat, queue: List)
    requires Consistent(c) && x in c.live
    requires Removed(c, c', x, j, queue)
    requires j < |Queue(c.live, x.price, x.isBuy)| && Queue(c.live, x.price, x.isBuy)[j] == x
    ensures SideHolds(c'.mem, c'.index, queue, Wrap32(c.levels.At(x.price).Total(x.isBuy) + -(x.shares as int)),
                      c'.Slots(x.price, x.isBuy), Queue(c'.live, x.price, x.isBuy), c.levels.Ptr(x.price))
  {
    hide Filter, Sum, WithShares, Distinct, DistinctRefs;
    assert LevelHolds(c, x.price, x.isBuy);
    FilterDistinct(c.live, AtLevel(x.price, x.isBuy));
    FilterCommutes(c.live, NotRef(x.ref), AtLevel(x.price, x.isBuy));
    WithoutHolds(c.mem, c'.mem, c.index, c.levels.At(x.price).Queue(x.isBuy), queue,
                 c.levels.At(x.price).Total(x.isBuy),
                 c.Slots(x.price, x.isBuy), Queue(c.live, x.price, x.isBuy), c.levels.Ptr(x.price), j);
  }

  lemma OtherQueueAfterRemove(c: Core, x: Resting, p: Price4, isBuy: bool)
    requires DistinctRefs(c.live) && x in c.live && (p != x.price || isBuy != x.isBuy)
    ensures Queue(Filter(c.live, NotRef(x.ref)), p, isBuy) == Queue(c.live, p, isBuy)
    ensures forall y :: y in Queue(c.live, p, isBuy) ==> y.ref != x.ref
  {
    FilterCommutes(c.live, NotRef(x.ref), AtLevel(p, isBuy));
    RefsInQueueDiffer(c, x, p, isBuy);
    FilterAll(Queue(c.live, p, isBuy), NotRef(x.ref));
  }

  lemma RemovedOtherLevel(c: Core, c': Core, x: Resting, j: nat, queue: List, p: Price4, isBuy: bool)
    requires Consistent(c) && x in c.live
    requires Removed(c, c', x, j, queue)
    requires p != x.price || isBuy != x.isBuy
    requires SideKept(c.levels, c'.levels, p, isBuy)
    ensures LevelHolds(c', p, isBuy)
  {
    hide Filter, Sum, WithShares, Distinct, DistinctRefs;
    assert LevelHolds(c, p, isBuy);
    OtherQueueAfterRemove(c, x, p, isBuy);
    forall s: nat | s < |c.mem| && s in c.Slots(p, isBuy)
      ensures c'.mem[s] == c.mem[s]
    {
      if s in c.Slots(x.price, x.isBuy) {
        OtherQueueElsewhere(c, p, isBuy, x.price, x.isBuy, s);
      }
    }
    LevelUntouched(c, c', p, isBuy);
  }

  lemma RemovedConsistent(c: Core, c': Core, x: Resting, j: nat, queue: List)
    requires Consistent(c) && x in c.live
    requires Removed(c, c', x, j, queue)
    requires j < |Queue(c.live, x.price, x.isBuy)| && Queue(c.live, x.price, x.isBuy)[j] == x
    ensures Consistent(c')
  {
    hide Filter, Sum, WithShares, Distinct, DistinctRefs, IsList, QueueHolds, KeepsObjects, SameOutside, Wrap32,
      SideHolds, SideKept, Levels.Shape, Levels.Set, Levels.At, Levels.Ptr, Core.Slots;
    ConsistentParts(c);
    SideSet(c.levels, x.price, x.isBuy, queue, Wrap32(c.levels.At(x.price).Total(x.isBuy) + -(x.shares as int)));
    RemovedOwnLevel(c, c', x, j, queue);
    forall p: Price4, isBuy: bool | p != x.price || isBuy != x.isBuy
      ensures LevelHolds(c', p, isBuy)
    {
      RemovedOtherLevel(c, c', x, j, queue, p, isBuy);
    }
    RefsRemove(c.live, x.ref);
  }

  lemma RefsRemove(live: seq<Resting>, ref: OrderRef)
    requires DistinctRefs(live)
    ensures Refs(Filter(live, NotRef(ref))) == Refs(live) - {ref}
    ensures DistinctRefs(Filter(live, NotRef(ref)))
  {
    FilterMembers(live, NotRef(ref));
    FilterDistinct(live, NotRef(ref));
    forall y | y in live && y.ref != ref
      ensures y.ref in Refs(Filter(live, NotRef(ref)))
    {
      assert y in Filter(live, NotRef(ref));
    }
  }

  /** Unlinking, forgetting and releasing an order, step after step, leaves a consistent book. */
  lemma UnlinkedConsistent(c: Core, c': Core, mem1: Mem, x: Resting, j: nat, queue: List, next: Option<nat>)
    requires Consistent(c) && x in c.live
    requires var q := c.Slots(x.price, x.isBuy);
             && j < |q| && q[j] < |c.mem| && Distinct(q)
             && SameObjects(c.mem, mem1) && SameOutside(c.mem, mem1, q) && IsList(mem1, queue, Without(q, j))
             && c'.mem == mem1[q[j] := Free(next)]
             && c'.queues == c.queues[Key(x.price, x.isBuy) := Without(q, j)]
    requires var level := c.levels.At(x.price);
             c'.levels
               == c.levels.Set(x.price, level.With(x.isBuy, queue, Wrap32(level.Total(x.isBuy) + -(x.shares as int))))
    requires c'.index == c.index - {x.ref} && c'.live == Filter(c.live, NotRef(x.ref))
    requires j < |Queue(c.live, x.price, x.isBuy)| && Queue(c.live, x.price, x.isBuy)[j] == x
    ensures Consistent(c')
  {
    hide Filter, Distinct, IsList, SameObjects, SameOutside, Wrap32, Consistent;
    ReleasedObjects(c.mem, mem1, c'.mem, queue, c.Slots(x.price, x.isBuy), j, next);
    RemovedConsistent(c, c', x, j, queue);
  }

  // ----- scanning for the best price -----

  /** The prices a scan may answer: visible ones, strictly worse than `after` if it is given. */
  ghost function Candidates(live: seq<Resting>, isBuy: bool, after: Option<Price4>): set<Price4> {
    match after
    case None => Visible(live, isBuy)
    case Some(p) => WorseThan(Visible(live, isBuy), p, isBuy)
  }

  /** The test that both scans apply to a level. */
  predicate Qualifies(level: PriceLevel, isBuy: bool, after: Option<Price4>) {
    level.Total(isBuy) > 0 && (after.None? || Better(after.value, level.price, isBuy))
  }

  /** A price is visible exactly when its level's counter is not zero. */
  lemma VisibleIffCounted(c: Core, p: Price4, isBuy: bool)
    requires Consistent(c)
    ensures p in Visible(c.live, isBuy) <==> c.levels.At(p).Total(isBuy) > 0
  {
    assert LevelHolds(c, p, isBuy);
    QueueEmptyIffNoPrice(c.live, p, isBuy);
  }

  lemma CounterIsSharesAt(c: Core, p: Price4, isBuy: bool)
    requires Consistent(c)
    ensures c.levels.At(p).Total(isBuy) == SharesAt(c.live, p, isBuy)
  {
    assert LevelHolds(c, p, isBuy);
  }

  /** A qualifying flat slot is a candidate, at the slot's own place in the window. */
  lemma QualifyingSlot(c: Core, i: nat, isBuy: bool, after: Option<Price4>)
    requires Consistent(c) && i < |c.levels.flat| && Qualifies(c.levels.flat[i], isBuy, after)
    ensures var p := c.levels.flat[i].price;
            p == c.levels.reference + i - c.levels.halfWidth && c.levels.InWindow(p)
              && p in Candidates(c.live, isBuy, after)
  {
    VisibleIffCounted(c, c.levels.flat[i].price, isBuy);
  }

  /** A candidate inside the window has a qualifying slot. */
  lemma CandidateSlot(c: Core, p: Price4, isBuy: bool, after: Option<Price4>)
    requires Consistent(c) && p in Candidates(c.live, isBuy, after) && c.levels.InWindow(p)
    ensures Qualifies(c.levels.flat[p - c.levels.reference + c.levels.halfWidth], isBuy, after)
    ensures c.levels.flat[p - c.levels.reference + c.levels.halfWidth].price == p
  {
    VisibleIffCounted(c, p, isBuy);
  }

  /** Outliers are candidates exactly when they qualify, and no other price outside the window is one. */
  lemma CandidateOutlier(c: Core, p: Price4, isBuy: bool, after: Option<Price4>)
    requires Consistent(c) && !c.levels.InWindow(p)
    ensures p in Candidates(c.live, isBuy, after)
            <==> p in c.levels.outliers && Qualifies(c.levels.outliers[p], isBuy, after)
  {
    VisibleIffCounted(c, p, isBuy);
  }

  ghost function InFlat(c: Core, isBuy: bool, after: Option<Price4>): set<Price4> {
    set p | p in Candidates(c.live, isBuy, after) && c.levels.InWindow(p)
  }

  ghost function AmongOutliers(c: Core, isBuy: bool, after: Option<Price4>, seen: set<Price4>): set<Price4> {
    set p | p in Candidates(c.live, isBuy, after) && p in seen
  }

  /** Looking at one more outlier keeps the best of those seen. */
  lemma OutlierStep(c: Core, isBuy: bool, after: Option<Price4>, seen: set<Price4>, p: Price4, best: Option<Price4>)
    requires Consistent(c) && p in c.levels.outliers
    requires IsBest(AmongOutliers(c, isBuy, after, seen), isBuy, best)
    ensures IsBest(AmongOutliers(c, isBuy, after, seen + {p}), isBuy,
                   if Qualifies(c.levels.outliers[p], isBuy, after) && (best.None? || Better(p, best.value, isBuy))
                      then Some(p) else best)
  {
    CandidateOutlier(c, p, isBuy, after);
    assert AmongOutliers(c, isBuy, after, seen + {p})
        == AmongOutliers(c, isBuy, after, seen) + (if Qualifies(c.levels.outliers[p], isBuy, after) then {p} else {});
  }

  /** The first qualifying slot met, coming from the better end, has the best price in the window. */
  lemma FirstSlotIsBest(c: Core, i: nat, isBuy: bool, after: Option<Price4>)
    requires Consistent(c) && i < |c.levels.flat| && Qualifies(c.levels.flat[i], isBuy, after)
    requires forall k :: 0 <= k < |c.levels.flat| && (if isBuy then k > i else k < i) ==>
                           !Qualifies(c.levels.flat[k], isBuy, after)
    ensures IsBest(InFlat(c, isBuy, after), isBuy, Some(c.levels.flat[i].price))
  {
    QualifyingSlot(c, i, isBuy, after);
    forall q | q in InFlat(c, isBuy, after)
      ensures !Better(q, c.levels.flat[i].price, isBuy)
    {
      CandidateSlot(c, q, isBuy, after);
    }
  }

  lemma NoSlotNoBest(c: Core, isBuy: bool, after: Option<Price4>)
    requires Consistent(c)
    requires forall k :: 0 <= k < |c.levels.flat| ==> !Qualifies(c.levels.flat[k], isBuy, after)
    ensures IsBest(InFlat(c, isBuy, after), isBuy, None)
  {
    forall q | q in InFlat(c, isBuy, after)
      ensures false
    {
      CandidateSlot(c, q, isBuy, after);
    }
  }

  /** The better of the best in the window and the best outlier is the best of all. */
  lemma BetterOfBoth(c: Core, isBuy: bool, after: Option<Price4>, inFlat: Option<Price4>, outlier: Option<Price4>,
                     best: Option<Price4>)
    requires Consistent(c)
    requires IsBest(InFlat(c, isBuy, after), isBuy, inFlat)
    requires IsBest(AmongOutliers(c, isBuy, after, c.levels.outliers.Keys), isBuy, outlier)
    requires best == if inFlat.Some? && outlier.Some?
             then (if Better(outlier.value, inFlat.value, isBuy) then outlier else inFlat)
                     else if inFlat.Some? then inFlat else outlier
    ensures best == BestIn(Candidates(c.live, isBuy, after), isBuy)
  {
    var all := Candidates(c.live, isBuy, after);
    forall q | q in all
      ensures q in InFlat(c, isBuy, after) || q in AmongOutliers(c, isBuy, after, c.levels.outliers.Keys)
    {
      if !c.levels.InWindow(q) {
        CandidateOutlier(c, q, isBuy, after);
      }
    }
    BestIsUnique(all, isBuy, best);
  }
}
