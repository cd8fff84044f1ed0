/**
 The single-symbol limit order book: price levels in a flat array with a map of
 outliers, intrusive FIFO queues over a fixed pool, a hash index of orders, and
 incrementally cached best prices. Every operation is proved against its
 meaning in `BookSpec`.
 */
module Book {
  import opened Bits
  import opened BookCore
  import opened BookSpec
  import Feed
  import opened HashMap
  import opened IntrusiveList
  import Itch
  import opened ItchTypes
  import Pool = ObjectPool
  import opened Options
  import opened Orders
  import opened Words

  class OrderBook {
    const referencePrice: Price4
    const halfWidth: nat
    const flat: array<PriceLevel>
    var outliers: map<Price4, PriceLevel>
    const pool: Pool.ObjectPool<Node<OrderData>>
    const index: OpenAddressingHashMap<nat>
    var bestBid: Option<Price4>
    var bestAsk: Option<Price4>

    /** The slots of each (price, side) queue, and the live orders in arrival order. */
    ghost var queues: map<Key, seq<nat>>
    ghost var live: seq<Resting>

    ghost function Levels(): Levels
      reads `outliers, flat
    {
      BookCore.Levels.Levels(referencePrice, halfWidth, flat[..], outliers)
    }

    ghost function Core(): Core
      reads `outliers, `queues, `live, flat, pool, pool.slots, index, index.slots
      requires index.Valid()
    {
      BookCore.Core.Core(pool.slots[..], Levels(), index.Contents(), queues, live)
    }

    /** What the operations do, seen from outside. */
    ghost function State(): BookState
      reads `live, `bestBid, `bestAsk
    {
      BookState(live, bestBid, bestAsk)
    }

    /** All linked structures agree, and pool, index and live orders count the same. */
    ghost predicate Linked()
      reads `outliers, `queues, `live, flat, pool, pool.slots, index, index.slots
    {
      && pool.Valid()
      && index.Valid()
      && Consistent(Core())
      && pool.size == index.size == |live|
      && pool.capacity <= index.capacity
    }

    ghost predicate Valid()
      reads this, flat, pool, pool.slots, index, index.slots
    {
      Linked() && WellFormed(State(), pool.capacity)
    }

    /** The flat array, every slot with its price for good. */
    static method NewLevels(referencePrice: Price4, halfWidth: nat) returns (flat: array<PriceLevel>)
      ensures fresh(flat) && FreshLevels(flat[..], referencePrice, halfWidth)
    {
      flat := new PriceLevel[2 * halfWidth + 1](_ => EmptyLevel(0));
      for i := 0 to flat.Length
        invariant forall k :: 0 <= k < i ==> flat[k] == EmptyLevel(Wrap32(referencePrice + k - halfWidth))
      {
        flat[i] := EmptyLevel(Wrap32(referencePrice + i - halfWidth));
      }
    }

    constructor (referencePrice: Price4, halfWidth: nat, orderCapacity: u64, hash: u64 -> u64)
      requires orderCapacity <= 0x8000_0000_0000_0000
      ensures Valid() && fresh(flat) && fresh(pool) && fresh(pool.slots) && fresh(index) && fresh(index.slots)
      ensures State() == EMPTY_BOOK && pool.capacity == orderCapacity
    {
      this.referencePrice := referencePrice;
      this.halfWidth := halfWidth;
      var levels := NewLevels(referencePrice, halfWidth);
      flat := levels;
      outliers := map[];
      pool := new Pool.ObjectPool<Node<OrderData>>(orderCapacity);
      index := new OpenAddressingHashMap<nat>(orderCapacity, hash);
      bestBid, bestAsk := None, None;
      queues, live := map[], [];
      new;
      hide OpenAddressingHashMap.Valid, OpenAddressingHashMap.Contents, Pool.ObjectPool.Valid, Consistent,
        RoundUpToPowerOfTwo, FreshLevels, WellFormed;
      EmptyBookWellFormed(orderCapacity);
      RoundUpNotBelow(orderCapacity);
      FreshConsistent(Core());
    }

    // ----- levels -----

    /** The flat-array slot of a price inside the window. */
    function FlatIndexFor(price: Price4): Option<nat> {
      var offset := price - referencePrice;
      if offset < -(halfWidth as int) || offset > halfWidth then None else Some(offset + halfWidth)
    }

    /** Where the level of `price` is. */
    function PtrFor(price: Price4): (ptr: LevelPtr)
      ensures ptr == Levels().Ptr(price)
    {
      var i := FlatIndexFor(price);
      if i.Some? then Flat(i.value) else Outlier(price)
    }

    /** The level of `price`, created among the outliers if need be. */
    method LevelForMutation(price: Price4) returns (ptr: LevelPtr)
      requires flat.Length == 2 * halfWidth + 1
      modifies this`outliers
      ensures ptr == Levels().Ptr(price)
      ensures PointsTo(ptr) && Deref(ptr) == Levels().At(price) == old(Levels().At(price))
      ensures forall level :: Levels().Set(price, level) == old(Levels()).Set(price, level)
    {
      var i := FlatIndexFor(price);
      if i.Some? {
        return Flat(i.value);
      }
      if price !in outliers {
        outliers := outliers[price := EmptyLevel(price)];
      }
      return Outlier(price);
    }

    function LevelForQuery(price: Price4): (level: Option<PriceLevel>)
      requires flat.Length == 2 * halfWidth + 1
      reads `outliers, flat
      ensures level.Some? ==> level.value == Levels().At(price)
      ensures level.None? ==> Levels().At(price) == EmptyLevel(price)
    {
      var i := FlatIndexFor(price);
      if i.Some? then Some(flat[i.value])
      else if price in outliers then Some(outliers[price])
      else None
    }

    predicate PointsTo(ptr: LevelPtr)
      reads `outliers
    {
      match ptr
      case Flat(i) => i < flat.Length
      case Outlier(p) => p in outliers
    }

    function Deref(ptr: LevelPtr): PriceLevel
      requires PointsTo(ptr)
      reads `outliers, flat
    {
      match ptr
      case Flat(i) => flat[i]
      case Outlier(p) => outliers[p]
    }

    /** Writes a level through its pointer. */
    method Store(ptr: LevelPtr, level: PriceLevel, ghost price: Price4)
      requires flat.Length == 2 * halfWidth + 1
      requires PointsTo(ptr) && ptr == Levels().Ptr(price)
      modifies flat, this`outliers
      ensures Levels() == old(Levels()).Set(price, level)
    {
      match ptr
      case Flat(i) =>
        flat[i] := level;
      case Outlier(p) =>
        outliers := outliers[p := level];
    }

    // ----- adding -----

    lemma IndexedIffLive(ref: OrderRef)
      requires Linked()
      ensures ref in index.Contents() <==> Lookup(live, ref).Some?
    {
      if Lookup(live, ref).Some? {
        assert Lookup(live, ref).value in live;
      }
      assert index.Contents().Keys == Refs(live);
    }

    /** `IntrusiveList.PushBack` over the pool's memory. */
    method LinkBack(list: List, slot: nat, ghost q: seq<nat>) returns (list': List)
      requires pool.Valid() && IsList(pool.slots[..], list, q)
      requires slot < pool.slots.Length && pool.slots[slot].Live? && slot !in q
      modifies pool.slots
      ensures pool.Valid() && IsList(pool.slots[..], list', q + [slot])
      ensures SameObjects(old(pool.slots[..]), pool.slots[..])
      ensures SameOutside(old(pool.slots[..]), pool.slots[..], q + [slot])
    {
      ghost var before := pool.slots[..];
      list' := PushBack(pool.slots, list, slot, q);
      Pool.LiveWritesKeepExact(before, pool.slots[..], pool.freeHead, pool.free);
    }

    /** `IntrusiveList.Remove` over the pool's memory. */
    method LinkOut(list: List, slot: nat, ghost q: seq<nat>, ghost j: nat) returns (list': List)
      requires pool.Valid() && IsList(pool.slots[..], list, q)
      requires j < |q| && q[j] == slot
      modifies pool.slots
      ensures pool.Valid() && IsList(pool.slots[..], list', Without(q, j))
      ensures SameObjects(old(pool.slots[..]), pool.slots[..])
      ensures SameOutside(old(pool.slots[..]), pool.slots[..], q)
    {
      ghost var before := pool.slots[..];
      list' := Remove(pool.slots, list, slot, q, j);
      Pool.LiveWritesKeepExact(before, pool.slots[..], pool.freeHead, pool.free);
    }

    /** Pushes the new order in `slot` to the back of its level's queue and counts its shares. */
    method Enqueue(x: Resting, slot: nat, ghost c: Core) returns (ghost queue: List)
      requires pool.Valid() && Consistent(c)
      requires c.levels == Levels() && c.queues == queues && c.live == live
      requires slot < |c.mem| && c.mem[slot].Free?
      requires pool.slots[..] == c.mem[slot := Pool.Live(Node(None, None, OrderData(x, Levels().Ptr(x.price))))]
      modifies pool.slots, flat, this`outliers, this`queues, this`live
      ensures pool.Valid()
      ensures live == c.live + [x]
      ensures Added(c, BookCore.Core.Core(pool.slots[..], Levels(), c.index[x.ref := slot], queues, live), x, slot,
                    queue)
    {
      hide IsList, SameObjects, SameOutside, KeepsObjects, SlotHolds, Consistent, Wrap32, Pool.ObjectPool.Valid,
        BookCore.Levels.Shape, BookCore.Levels.Set, BookCore.Levels.At, BookCore.Levels.Ptr, BookCore.Core.Slots,
        PointsTo, Deref;
      ConsistentParts(c);
      ghost var q := c.Slots(x.price, x.isBuy);
      ghost var mem1 := pool.slots[..];
      var ptr := LevelForMutation(x.price);
      var level := Deref(ptr);
      QueueBeforePush(c, mem1, x, slot);
      var list := LinkBack(level.Queue(x.isBuy), slot, q);
      PushedObjects(c.mem, mem1, pool.slots[..], slot, x, c.levels.Ptr(x.price), q);
      Store(ptr, level.With(x.isBuy, list, Wrap32(level.Total(x.isBuy) + x.shares)), x.price);
      assert Levels() == c.levels.Set(x.price, level.With(x.isBuy, list, Wrap32(level.Total(x.isBuy) + x.shares)));
      queues := queues[Key(x.price, x.isBuy) := q + [slot]];
      live := live + [x];
      return list;
    }

    /** Queues and indexes a new order whose slot has just been acquired. */
    method Admit(x: Resting, slot: nat, ghost c: Core)
      requires pool.Valid() && index.Valid() && Consistent(c)
      requires c.levels == Levels() && c.queues == queues && c.live == live && c.index == index.Contents()
      requires slot < |c.mem| && c.mem[slot].Free?
      requires pool.slots[..] == c.mem[slot := Pool.Live(Node(None, None, OrderData(x, Levels().Ptr(x.price))))]
      requires x.ref !in c.index && index.size == |live|
      requires pool.size == |live| + 1 && |live| < pool.capacity <= index.capacity
      modifies pool.slots, index, index.slots, flat, `outliers, `queues, `live
      ensures Linked() && live == c.live + [x]
    {
      hide Filter, Sum, DistinctRefs, Added, Consistent, OpenAddressingHashMap.Valid, OpenAddressingHashMap.Contents,
        Pool.ObjectPool.Valid;
      ghost var queue := Enqueue(x, slot, c);
      var inserted := index.Insert(x.ref, slot);
      if !inserted {
        assert false;  // the roll-back is never needed: the pool runs out before the index does
      }
      AddedConsistent(c, Core(), x, slot, queue);
    }

    method AddOrder(ref: OrderRef, price: Price4, shares: Shares, isBuy: bool, trader: TraderId) returns (ok: bool)
      requires Valid()
      modifies this, flat, pool, pool.slots, index, index.slots
      ensures Valid()
      ensures (State(), ok) == Add(old(State()), pool.capacity, Resting(ref, price, shares, isBuy, trader))
      ensures ok ==> Lookup(State().live, ref) == Some(Resting(ref, price, shares, isBuy, trader))
    {
      hide Filter, Sum, DistinctRefs, Consistent, OpenAddressingHashMap.Valid, OpenAddressingHashMap.Contents;
      if shares == 0 {
        return false;
      }
      var found := index.Find(ref);
      IndexedIffLive(ref);
      if found.Some? {
        return false;
      }
      ghost var c := Core();
      var x := Resting(ref, price, shares, isBuy, trader);
      var slot := pool.Acquire(Node(None, None, OrderData(x, PtrFor(price))));
      if slot.None? {
        return false;
      }
      Admit(x, slot.value, c);
      UpdateBestOnAdd(price, isBuy);
      AddWellFormed(old(State()), pool.capacity, x);
      AddStores(old(State()), pool.capacity, x, ref);
      return true;
    }

    method UpdateBestOnAdd(price: Price4, isBuy: bool)
      modifies this`bestBid, this`bestAsk
      ensures State() == old(State()).WithBest(isBuy, ImproveBest(old(State()).Best(isBuy), price, isBuy))
    {
      if isBuy {
        if bestBid.None? || price > bestBid.value {
          bestBid := Some(price);
        }
      } else {
        if bestAsk.None? || price < bestAsk.value {
          bestAsk := Some(price);
        }
      }
    }

    // ----- scanning for the best price -----

    /** Comes down (buy) or up (sell) the flat array to the first level that qualifies. */
    method BestInFlat(isBuy: bool, after: Option<Price4>) returns (best: Option<Price4>)
      requires Linked()
      ensures IsBest(InFlat(Core(), isBuy, after), isBuy, best)
    {
      hide Consistent, OpenAddressingHashMap.Valid, OpenAddressingHashMap.Contents, Pool.ObjectPool.Valid, InFlat;
      if isBuy {
        var i := flat.Length;
        while i > 0
          invariant 0 <= i <= flat.Length
          invariant forall k :: i <= k < flat.Length ==> !Qualifies(flat[k], isBuy, after)
        {
          i := i - 1;
          if Qualifies(flat[i], isBuy, after) {
            FirstSlotIsBest(Core(), i, isBuy, after);
            return Some(flat[i].price);
          }
        }
      } else {
        var i := 0;
        while i < flat.Length
          invariant 0 <= i <= flat.Length
          invariant forall k :: 0 <= k < i ==> !Qualifies(flat[k], isBuy, after)
        {
          if Qualifies(flat[i], isBuy, after) {
            FirstSlotIsBest(Core(), i, isBuy, after);
            return Some(flat[i].price);
          }
          i := i + 1;
        }
      }
      NoSlotNoBest(Core(), isBuy, after);
      return None;
    }

    method BestOutlier(isBuy: bool, after: Option<Price4>) returns (best: Option<Price4>)
      requires Linked()
      ensures IsBest(AmongOutliers(Core(), isBuy, after, outliers.Keys), isBuy, best)
    {
      ghost var c := Core();
      assert c.levels.Shape();
      hide Consistent, OpenAddressingHashMap.Valid, OpenAddressingHashMap.Contents, Pool.ObjectPool.Valid, Candidates;
      assert AmongOutliers(c, isBuy, after, {}) == {};
      hide AmongOutliers, IsBest;
      best := None;
      var todo := outliers.Keys;
      ghost var seen: set<Price4> := {};
      while todo != {}
        invariant todo !! seen && todo + seen == outliers.Keys
        invariant IsBest(AmongOutliers(c, isBuy, after, seen), isBuy, best)
        decreases todo
      {
        var p :| p in todo;
        OutlierStep(c, isBuy, after, seen, p, best);
        if Qualifies(outliers[p], isBuy, after) {
          if best.None? || Better(p, best.value, isBuy) {
            best := Some(p);
          }
        }
        todo, seen := todo - {p}, seen + {p};
      }
    }

    /** The best visible price, or the best one strictly worse than `after`; nothing is changed. */
    method ScanBest(isBuy: bool, after: Option<Price4>) returns (best: Option<Price4>)
      requires Linked()
      ensures best == BestIn(Candidates(live, isBuy, after), isBuy)
    {
      var inFlat := BestInFlat(isBuy, after);
      var outlier := BestOutlier(isBuy, after);
      hide Consistent, OpenAddressingHashMap.Valid, OpenAddressingHashMap.Contents, Pool.ObjectPool.Valid, Candidates,
        InFlat, AmongOutliers;
      if inFlat.Some? && outlier.Some? {
        best := if Better(outlier.value, inFlat.value, isBuy) then outlier else inFlat;
      } else {
        best := if inFlat.Some? then inFlat else outlier;
      }
      BetterOfBoth(Core(), isBuy, after, inFlat, outlier, best);
    }

    // ----- removing and reducing -----

    /** Takes the order in `slot` out of its queue and off its level's counter. */
    method Dequeue(slot: nat, ghost x: Resting, ghost j: nat, ghost c: Core) returns (ghost queue: List)
      requires pool.Valid() && Consistent(c)
      requires c.levels == Levels() && c.mem == pool.slots[..]
      requires j < |c.Slots(x.price, x.isBuy)| && c.Slots(x.price, x.isBuy)[j] == slot
      requires SlotHolds(c.mem, slot, x, Levels().Ptr(x.price))
      modifies pool.slots, flat, `outliers
      ensures pool.Valid() && pool.slots[slot].Live?
      ensures var q := c.Slots(x.price, x.isBuy);
              && Pool.Distinct(q)
              && SameObjects(c.mem, pool.slots[..]) && SameOutside(c.mem, pool.slots[..], q)
              && IsList(pool.slots[..], queue, Without(q, j))
      ensures var level := c.levels.At(x.price);
              Levels()
                == c.levels.Set(x.price, level.With(x.isBuy, queue, Wrap32(level.Total(x.isBuy) + -(x.shares as int))))
    {
      hide IsList, SameObjects, SameOutside, Consistent, Wrap32, Pool.ObjectPool.Valid, BookCore.Levels.Shape, Queue,
        Pool.Distinct;
      ghost var q := c.Slots(x.price, x.isBuy);
      LevelParts(c, x.price, x.isBuy);
      var order := pool.slots[slot].value.value;
      var ptr := order.level;
      var isBuy := order.order.isBuy;
      var level := Deref(ptr);
      var list := LinkOut(level.Queue(isBuy), slot, q, j);
      Store(ptr, level.With(isBuy, list, Wrap32(level.Total(isBuy) + -(order.order.shares as int))), x.price);
      return list;
    }

    /** Drops an order from the index and gives its slot back. */
    method Forget(ref: OrderRef, slot: nat)
      requires pool.Valid() && index.Valid() && ref in index.Contents()
      requires slot < pool.slots.Length && pool.slots[slot].Live?
      modifies pool, pool.slots, index, index.slots
      ensures pool.Valid() && index.Valid()
      ensures pool.size == old(pool.size) - 1 && index.size == old(index.size) - 1
      ensures index.Contents() == old(index.Contents()) - {ref}
      ensures pool.slots[..] == old(pool.slots[..])[slot := Pool.Free(old(pool.freeHead))]
    {
      hide OpenAddressingHashMap.Valid, OpenAddressingHashMap.Contents, Pool.ObjectPool.Valid;
      var erased := index.Erase(ref);
      pool.Release(slot);
    }

    /** Takes the order in `slot` out of its queue, its level's counter, the index and the pool. */
    method Unlink(slot: nat, ghost x: Resting, ghost j: nat)
      requires Linked() && x in live
      requires j < |Queue(live, x.price, x.isBuy)| && Queue(live, x.price, x.isBuy)[j] == x
      requires j < |Core().Slots(x.price, x.isBuy)| && Core().Slots(x.price, x.isBuy)[j] == slot
      requires x.ref in index.Contents() && SlotHolds(pool.slots[..], slot, x, Levels().Ptr(x.price))
      modifies pool, pool.slots, index, index.slots, flat, `outliers, `queues, `live
      ensures Linked() && live == Filter(old(live), NotRef(x.ref))
    {
      hide SameObjects, SameOutside, Consistent, Wrap32, Filter, Sum, IsList, Pool.Distinct, Without, DistinctRefs,
        BookCore.Core.Slots, BookCore.Levels.Shape, BookCore.Levels.Set, BookCore.Levels.At, BookCore.Levels.Ptr,
        OpenAddressingHashMap.Valid, OpenAddressingHashMap.Contents, Pool.ObjectPool.Valid, Queue;
      ghost var c := Core();
      ghost var q := c.Slots(x.price, x.isBuy);
      ConsistentParts(c);
      SumRemove(live, x);
      var ref := pool.slots[slot].value.value.order.ref;
      ghost var list := Dequeue(slot, x, j, c);
      ghost var mem1 := pool.slots[..];
      ghost var freeHead := pool.freeHead;
      Forget(ref, slot);
      queues := queues[Key(x.price, x.isBuy) := Without(q, j)];
      live := Filter(live, NotRef(x.ref));
      UnlinkedConsistent(c, Core(), mem1, x, j, list, freeHead);
    }

    method RecomputeBest(isBuy: bool)
      requires Linked()
      modifies `bestBid, `bestAsk
      ensures State() == old(State()).WithBest(isBuy, BestIn(Visible(live, isBuy), isBuy))
    {
      hide Consistent, OpenAddressingHashMap.Valid, OpenAddressingHashMap.Contents, Pool.ObjectPool.Valid, Visible;
      var best := ScanBest(isBuy, None);
      if isBuy {
        bestBid := best;
      } else {
        bestAsk := best;
      }
    }

    /** Removes a live order; the best price is rescanned only if its level was the best and is now empty. */
    method RemoveOrderFully(slot: nat, ghost x: Resting)
      requires Linked() && x in live
      requires x.ref in index.Contents() && index.Contents()[x.ref] == slot
      modifies this, pool, pool.slots, index, index.slots, flat
      ensures Linked()
      ensures State() == RemoveFully(old(State()), x)
    {
      hide Consistent, OpenAddressingHashMap.Valid, OpenAddressingHashMap.Contents, Pool.ObjectPool.Valid, Filter,
        Visible, BestIn, Queue, BookCore.Core.Slots, BookCore.Levels.Ptr, BookCore.Levels.Shape;
      ghost var j := IndexedSlot(Core(), x);
      ConsistentParts(Core());
      var order := pool.slots[slot].value.value.order;
      Unlink(slot, x, j);
      ConsistentParts(Core());
      ListEmptyIffQueueEmpty(Core(), order.price, order.isBuy);
      var level := LevelForQuery(order.price);
      if level.Some? && level.value.Queue(order.isBuy).head.Some? {
        return;
      }
      if (if order.isBuy then bestBid == Some(order.price) else bestAsk == Some(order.price)) {
        RecomputeBest(order.isBuy);
      }
    }

    /** The live order `x` is indexed at `slot`, which holds it and points to its stored level. */
    ghost predicate StoredIn(slot: nat, x: Resting)
      reads `outliers, `queues, `live, flat, pool, pool.slots, index, index.slots
    {
      && Linked() && x in live
      && x.ref in index.Contents() && index.Contents()[x.ref] == slot
      && SlotHolds(pool.slots[..], slot, x, Levels().Ptr(x.price)) && PointsTo(Levels().Ptr(x.price))
    }

    lemma StoredParts(slot: nat, x: Resting)
      requires StoredIn(slot, x)
      ensures Linked() && x in live
      ensures x.ref in index.Contents() && index.Contents()[x.ref] == slot
      ensures SlotHolds(pool.slots[..], slot, x, Levels().Ptr(x.price)) && PointsTo(Levels().Ptr(x.price))
    {
    }

    /** Where a live order is: its slot holds it and points to its stored level. */
    lemma FoundOrder(ref: OrderRef) returns (x: Resting)
      requires Linked() && Lookup(live, ref).Some?
      ensures x == Lookup(live, ref).value && x in live && x.ref == ref
      ensures ref in index.Contents() && StoredIn(index.Contents()[ref], x)
    {
      x := Lookup(live, ref).value;
      LiveIsStored(x);
    }

    lemma LiveIsStored(x: Resting)
      requires Linked() && x in live
      ensures x.ref in index.Contents() && StoredIn(index.Contents()[x.ref], x)
    {
      var j := IndexedSlot(Core(), x);
      LevelParts(Core(), x.price, x.isBuy);
    }

    /** Takes `delta` shares off the order in `slot`, in place. */
    method Shrink(slot: nat, delta: Shares)
      requires pool.Valid() && slot < pool.slots.Length && pool.slots[slot].Live?
      requires delta <= pool.slots[slot].value.value.order.shares
      modifies pool.slots
      ensures pool.Valid()
      ensures var node := old(pool.slots[slot]).value;
              var x := node.value.order;
              pool.slots[..] == old(pool.slots[..])
                [slot := Pool.Live(node.(value := OrderData(x.(shares := x.shares - delta), node.value.level)))]
    {
      hide Pool.FreeListExact;
      ghost var mem := pool.slots[..];
      var node := pool.slots[slot].value;
      var order := node.value.order;
      pool.slots[slot] := Pool.Live(node.(value := OrderData(order.(shares := order.shares - delta),
                                                             node.value.level)));
      Pool.LiveWritesKeepExact(mem, pool.slots[..], pool.freeHead, pool.free);
    }

    /** Takes `delta` shares off the order in `slot` and off its level's counter. */
    method Deduct(slot: nat, delta: Shares, ghost x: Resting)
      requires delta <= x.shares && StoredIn(slot, x)
      modifies pool.slots, flat, `outliers, `live
      ensures Linked() && live == WithShares(old(live), x.ref, x.shares - delta)
    {
      hide Consistent, Wrap32, WithShares, OpenAddressingHashMap.Valid, OpenAddressingHashMap.Contents,
        Pool.ObjectPool.Valid, BookCore.Levels.Shape, BookCore.Levels.Set;
      ghost var c := Core();
      ConsistentParts(c);
      var order := pool.slots[slot].value.value;
      Shrink(slot, delta);
      var level := Deref(order.level);
      var isBuy := order.order.isBuy;
      Store(order.level, level.With(isBuy, level.Queue(isBuy), Wrap32(level.Total(isBuy) + -(delta as int))), x.price);
      live := WithShares(live, x.ref, x.shares - delta);
      ReducedConsistent(c, Core(), x, slot, x.shares - delta);
    }

    /** The same; the order, with what it has left, is still where it was. */
    method TakeShares(slot: nat, delta: Shares, ghost x: Resting)
      requires delta <= x.shares && StoredIn(slot, x)
      modifies pool.slots, flat, `outliers, `live
      ensures live == WithShares(old(live), x.ref, x.shares - delta)
      ensures StoredIn(slot, x.(shares := x.shares - delta))
    {
      hide Consistent, WithShares, OpenAddressingHashMap.Valid, OpenAddressingHashMap.Contents, Pool.ObjectPool.Valid,
        StoredIn, PointsTo, BookCore.Levels.Ptr;
      StoredParts(slot, x);
      WithSharesMembers(live, x.ref, x.shares - delta);
      assert Left(x, x.ref, x.shares - delta) in WithShares(live, x.ref, x.shares - delta);
      Deduct(slot, delta, x);
      LiveIsStored(x.(shares := x.shares - delta));
    }

    method ReduceShares(ref: OrderRef, delta: Shares) returns (ok: bool)
      requires Valid()
      modifies this, flat, pool, pool.slots, index, index.slots
      ensures Valid()
      ensures (State(), ok) == Reduce(old(State()), ref, delta)
    {
      hide Consistent, OpenAddressingHashMap.Valid, OpenAddressingHashMap.Contents, Pool.ObjectPool.Valid, WithShares,
        RemoveFully, WellFormed, BookCore.Levels.Ptr;
      var found := index.Find(ref);
      IndexedIffLive(ref);
      if found.None? {
        return false;
      }
      var slot := found.value;
      ghost var b := State();
      ghost var x := FoundOrder(ref);
      var order := pool.slots[slot].value.value.order;
      if delta == 0 || delta > order.shares {
        return false;
      }
      ConsistentParts(Core());
      TakeShares(slot, delta, x);
      if order.shares == delta {
        RemoveAfterZero(b, x);
        RemoveOrderFully(slot, x.(shares := 0));
      }
      ReduceWellFormed(b, pool.capacity, ref, delta);
      return true;
    }

    method ExecuteOrder(ref: OrderRef, executedShares: Shares) returns (ok: bool)
      requires Valid()
      modifies this, flat, pool, pool.slots, index, index.slots
      ensures Valid()
      ensures (State(), ok) == Reduce(old(State()), ref, executedShares)
    {
      ok := ReduceShares(ref, executedShares);
    }

    method CancelOrder(ref: OrderRef, cancelledShares: Shares) returns (ok: bool)
      requires Valid()
      modifies this, flat, pool, pool.slots, index, index.slots
      ensures Valid()
      ensures (State(), ok) == Reduce(old(State()), ref, cancelledShares)
    {
      ok := ReduceShares(ref, cancelledShares);
    }

    method DeleteOrder(ref: OrderRef) returns (ok: bool)
      requires Valid()
      modifies this, flat, pool, pool.slots, index, index.slots
      ensures Valid()
      ensures (State(), ok) == Delete(old(State()), ref)
    {
      hide Consistent, OpenAddressingHashMap.Valid, OpenAddressingHashMap.Contents, Pool.ObjectPool.Valid,
        RemoveFully, WellFormed, BookCore.Levels.Ptr;
      var found := index.Find(ref);
      IndexedIffLive(ref);
      if found.None? {
        return false;
      }
      ghost var b := State();
      ghost var x := FoundOrder(ref);
      RemoveOrderFully(found.value, x);
      RemoveWellFormed(b, pool.capacity, x);
      return true;
    }

    method ReplaceOrder(oldRef: OrderRef, newRef: OrderRef, newShares: Shares, newPrice: Price4) returns (ok: bool)
      requires Valid()
      modifies this, flat, pool, pool.slots, index, index.slots
      ensures Valid()
      ensures (State(), ok) == Replace(old(State()), pool.capacity, oldRef, newRef, newShares, newPrice)
    {
      hide Consistent, OpenAddressingHashMap.Valid, OpenAddressingHashMap.Contents, Pool.ObjectPool.Valid,
        RemoveFully, WellFormed, Add, BookCore.Levels.Ptr;
      var found := index.Find(oldRef);
      IndexedIffLive(oldRef);
      if found.None? {
        return false;
      }
      if newShares == 0 {
        return false;
      }
      if oldRef != newRef {
        var clash := index.Find(newRef);
        IndexedIffLive(newRef);
        if clash.Some? {
          return false;
        }
      }
      ghost var b := State();
      ghost var x := FoundOrder(oldRef);
      var isBuy := pool.slots[found.value].value.value.order.isBuy;
      RemoveOrderFully(found.value, x);
      RemoveWellFormed(b, pool.capacity, x);
      ok := AddOrder(newRef, newPrice, newShares, isBuy, 0);
    }

    /** Feeding one decoded message to the book; the operation's own result is dropped. */
    method Apply(m: Itch.Message)
      requires Valid()
      modifies this, flat, pool, pool.slots, index, index.slots
      ensures Valid()
      ensures State() == Feed.ApplyMessage(old(State()), pool.capacity, m)
    {
      hide Valid, Add, Reduce, Delete, Replace, WellFormed;
      var ok;
      match m.payload {
        case AddOrderPayload(ref, side, shares, _, price, _) =>
          ok := AddOrder(ref, price, shares, side == Itch.BUY, 0);
        case OrderExecutedPayload(ref, shares, _) =>
          ok := ExecuteOrder(ref, shares);
        case OrderExecutedWithPricePayload(ref, shares, _, _, _) =>
          ok := ExecuteOrder(ref, shares);
        case OrderCancelPayload(ref, shares) =>
          ok := CancelOrder(ref, shares);
        case OrderDeletePayload(ref) =>
          ok := DeleteOrder(ref);
        case OrderReplacePayload(ref, newRef, shares, price) =>
          ok := ReplaceOrder(ref, newRef, shares, price);
        case SystemEventPayload(_) =>
        case StockDirectoryPayload(_) =>
        case TradePayload(_, _, _, _, _, _) =>
      }
    }

    // ----- queries -----

    method SharesAtPrice(price: Price4, isBuy: bool) returns (shares: Shares)
      requires Linked()
      ensures shares == SharesAt(live, price, isBuy)
    {
      VisibleIffCounted(Core(), price, isBuy);
      CounterIsSharesAt(Core(), price, isBuy);
      var level := LevelForQuery(price);
      return if level.None? then 0 else level.value.Total(isBuy);
    }

    method OrderCount() returns (count: nat)
      requires Linked()
      ensures count == |live|
    {
      return index.size;
    }

    /** The level that the cached best price names. */
    method BestLevel(isBuy: bool) returns (level: Option<PriceLevel>)
      requires Valid()
      ensures level.None? <==> State().Best(isBuy).None?
      ensures level.Some?
              ==> level.value == Levels().At(State().Best(isBuy).value)
                  && level.value.price == State().Best(isBuy).value
    {
      ghost var c := Core();
      var best := if isBuy then bestBid else bestAsk;
      if best.None? {
        return None;
      }
      QueueEmptyIffNoPrice(live, best.value, isBuy);
      LevelParts(c, best.value, isBuy);
      c.levels.AtHasPrice(best.value);
      level := LevelForQuery(best.value);
    }

    /** The nearest visible level strictly worse than `price`; nothing is changed. */
    method NextLevelAfter(price: Price4, isBuy: bool) returns (level: Option<PriceLevel>)
      requires Linked()
      ensures level.None? <==> NextVisible(live, price, isBuy).None?
      ensures level.Some? ==> var next := NextVisible(live, price, isBuy).value;
                              level.value == Levels().At(next) && level.value.price == next
    {
      ghost var c := Core();
      var best := ScanBest(isBuy, Some(price));
      if best.None? {
        return None;
      }
      QueueEmptyIffNoPrice(live, best.value, isBuy);
      LevelParts(c, best.value, isBuy);
      c.levels.AtHasPrice(best.value);
      level := LevelForQuery(best.value);
    }
  }
}
