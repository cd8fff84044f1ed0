/**
 The matching engine over the order book: a read-only dry run for Fill-Or-Kill
 and a mutating walk in price-time priority. The event handler is the log of the
 events it was given. Both walks and the submission are proved against
 `EngineSpec`.
 */
module Engine {
  import opened Book
  import opened BookCore
  import opened BookSpec
  import opened EngineSpec
  import opened ItchTypes
  import Pool = ObjectPool
  import HashMap
  import opened Options
  import opened Orders
  import opened Words

  class MatchingEngine {
    const book: OrderBook
    const preventSelfTrade: bool
    var events: seq<Event>

    constructor (book: OrderBook, preventSelfTrade: bool)
      ensures this.book == book && this.preventSelfTrade == preventSelfTrade && events == []
    {
      this.book := book;
      this.preventSelfTrade := preventSelfTrade;
      events := [];
    }

    /** Follows a level's queue from the head, adding up the eligible shares in 32 bits. */
    method AddQueue(o: IncomingOrder, level: PriceLevel, start: Shares) returns (total: Shares)
      requires book.Linked() && level == book.Levels().At(level.price)
      ensures total == Wrap32(start + LevelLiquidity(book.live, preventSelfTrade, o, level.price))
    {
      hide Consistent, HashMap.OpenAddressingHashMap.Valid, HashMap.OpenAddressingHashMap.Contents,
        Pool.ObjectPool.Valid, Filter, Sum, Queue, BookCore.Core.Slots, Wrap32;
      ghost var c := book.Core();
      ghost var slots, queue := c.Slots(level.price, !o.isBuy), Queue(book.live, level.price, !o.isBuy);
      ghost var t := EligibleTest(preventSelfTrade, o);
      QueueHead(c, level.price, !o.isBuy);
      var node := level.Queue(!o.isBuy).head;
      ghost var i := 0;
      total := start;
      PrefixStart(queue, t, start);
      while node.Some?
        invariant 0 <= i <= |slots| && node == Pool.Item(slots, i)
        invariant total == Wrap32(start + Sum(Filter(queue[..i], t)))
        decreases |slots| - i
      {
        QueueNode(c, level.price, !o.isBuy, i);
        var candidate := book.pool.slots[node.value].value;
        PrefixStep(queue, t, i, start);
        if Eligible(preventSelfTrade, o, candidate.value.order) {
          total := Wrap32(total + candidate.value.order.shares);
        }
        node := candidate.next;
        i := i + 1;
      }
      assert queue[..i] == queue;
    }

    /** Follows a level's queue from the head to the first order that is not barred. */
    method FirstEligible(o: IncomingOrder, level: PriceLevel) returns (resting: Option<Resting>)
      requires book.Linked() && level == book.Levels().At(level.price)
      ensures var e := EligibleOf(Queue(book.live, level.price, !o.isBuy), preventSelfTrade, o);
              resting == if e == [] then None else Some(e[0])
    {
      hide Consistent, HashMap.OpenAddressingHashMap.Valid, HashMap.OpenAddressingHashMap.Contents,
        Pool.ObjectPool.Valid, Filter, Sum, Queue, BookCore.Core.Slots;
      ghost var c := book.Core();
      ghost var slots, queue := c.Slots(level.price, !o.isBuy), Queue(book.live, level.price, !o.isBuy);
      ghost var t := EligibleTest(preventSelfTrade, o);
      QueueHead(c, level.price, !o.isBuy);
      var node := level.Queue(!o.isBuy).head;
      ghost var i := 0;
      FilterNone(queue[..0], t);
      while node.Some?
        invariant 0 <= i <= |slots| && node == Pool.Item(slots, i)
        invariant Filter(queue[..i], t) == []
        decreases |slots| - i
      {
        QueueNode(c, level.price, !o.isBuy, i);
        var candidate := book.pool.slots[node.value].value;
        if Eligible(preventSelfTrade, o, candidate.value.order) {
          FirstOfFilter(queue, t, i);
          return Some(candidate.value.order);
        }
        PrefixGrows(queue, t, i);
        node := candidate.next;
        i := i + 1;
      }
      assert queue[..i] == queue;
      return None;
    }

    /** The dry run: how much could be filled now, read-only, stopping early once it is enough. */
    method AvailableLiquidity(o: IncomingOrder) returns (total: Shares)
      requires book.Valid()
      ensures total == Available(book.live, preventSelfTrade, o, book.State().Best(!o.isBuy), 0)
    {
      hide Consistent, HashMap.OpenAddressingHashMap.Valid, HashMap.OpenAddressingHashMap.Contents,
        Pool.ObjectPool.Valid, Filter, Sum, Queue, WellFormed, NextVisible, LevelLiquidity, Wrap32, Available,
        Crosses;
      total := 0;
      var level := book.BestLevel(!o.isBuy);
      ghost var at := book.State().Best(!o.isBuy);
      ConsistentParts(book.Core());
      while level.Some? && total < o.quantity
        invariant book.flat.Length == 2 * book.halfWidth + 1
        invariant level.None? <==> at.None?
        invariant level.Some? ==> level.value == book.Levels().At(at.value) && level.value.price == at.value
        invariant Available(book.live, preventSelfTrade, o, at, total)
               == Available(book.live, preventSelfTrade, o, book.State().Best(!o.isBuy), 0)
        decreases if at.None? then 0 else 1 + Beyond(at.value, !o.isBuy)
      {
        if !Crosses(o, level.value.price) {
          break;
        }
        AvailableUnfolds(book.live, preventSelfTrade, o, at.value, total);
        if !preventSelfTrade || o.trader == 0 {
          CounterIsLiquidity(o, level.value, total);
          total := Wrap32(total + level.value.Total(!o.isBuy));
        } else {
          total := AddQueue(o, level.value, total);
        }
        NextVisibleIsWorse(book.live, at.value, !o.isBuy);
        at := NextVisible(book.live, at.value, !o.isBuy);
        level := book.NextLevelAfter(level.value.price, !o.isBuy);
      }
      AvailableStops(book.live, preventSelfTrade, o, at, total);
    }

    /** Without self-trade prevention the level's counter is what its queue adds up to. */
    lemma CounterIsLiquidity(o: IncomingOrder, level: PriceLevel, total: Shares)
      requires book.Linked() && level == book.Levels().At(level.price) && !StpActive(preventSelfTrade, o)
      ensures Wrap32(total + level.Total(!o.isBuy))
              == Wrap32(total + LevelLiquidity(book.live, preventSelfTrade, o, level.price))
    {
      hide Consistent, HashMap.OpenAddressingHashMap.Valid, HashMap.OpenAddressingHashMap.Contents,
        Pool.ObjectPool.Valid, Filter, Sum, Queue, BookCore.Levels.Shape;
      CounterIsSharesAt(book.Core(), level.price, !o.isBuy);
      FilterAll(Queue(book.live, level.price, !o.isBuy), Anyone);
      WrapTwice(total, LevelTotal(book.live, level.price, !o.isBuy));
    }

    /**
     What one iteration of the walk looks up: the best level, whether it crosses, and its
     first order that is not barred.
     */
    method FindResting(o: IncomingOrder) returns (resting: Option<Resting>)
      requires book.Valid()
      ensures resting == NextResting(book.State(), preventSelfTrade, o)
    {
      hide Consistent, HashMap.OpenAddressingHashMap.Valid, HashMap.OpenAddressingHashMap.Contents,
        Pool.ObjectPool.Valid, Filter, Sum, WellFormed;
      var level := book.BestLevel(!o.isBuy);
      if level.None? || !Crosses(o, level.value.price) {
        return None;
      }
      resting := FirstEligible(o, level.value);
    }

    /** The walk: executes against the best level's first eligible order until done or blocked. */
    method ExecuteMatch(o: IncomingOrder) returns (filled: Shares)
      requires book.Valid()
      modifies `events, book, book.flat, book.pool, book.pool.slots, book.index, book.index.slots
      ensures book.Valid()
      ensures var (b', fills, left) := Match(old(book.State()), book.pool.capacity, preventSelfTrade, o, o.quantity);
              book.State() == b' && events == old(events) + Events(o, fills) && filled == o.quantity - left
    {
      hide Consistent, HashMap.OpenAddressingHashMap.Valid, HashMap.OpenAddressingHashMap.Contents,
        Pool.ObjectPool.Valid, Filter, Sum, WellFormed, Match, Reduce, Lookup, NextResting, Events;
      ghost var start := book.State();
      ghost var capacity := book.pool.capacity;
      ghost var done: seq<Fill> := [];
      ghost var walk := Match(start, capacity, preventSelfTrade, o, o.quantity);
      assert [] + walk.1 == walk.1;
      NoEvents(o, events);
      var remaining := o.quantity;
      while remaining > 0
        invariant book.Valid() && 0 <= remaining <= o.quantity
        invariant events == old(events) + Events(o, done)
        invariant var (b', fills, left) := Match(book.State(), capacity, preventSelfTrade, o, remaining);
                  walk.0 == b' && walk.1 == done + fills && walk.2 == left
        decreases remaining
      {
        ghost var b := book.State();
        MatchUnfolds(b, capacity, preventSelfTrade, o, remaining);
        var resting := FindResting(o);
        if resting.None? {
          break;
        }
        var fillQuantity := if remaining < resting.value.shares then remaining else resting.value.shares;
        var executed := book.ExecuteOrder(resting.value.ref, fillQuantity);
        remaining := remaining - fillQuantity;
        ghost var f := Fill(resting.value.ref, resting.value.price, fillQuantity);
        EventsAppend(o, done, f);
        ghost var rest := Match(book.State(), capacity, preventSelfTrade, o, remaining).1;
        assert done + ([f] + rest) == (done + [f]) + rest;
        done := done + [f];
        events := events + [FillEvent(o.ref, resting.value.ref, resting.value.price, fillQuantity)];
      }
      MatchUnfolds(book.State(), capacity, preventSelfTrade, o, remaining);
      assert done + [] == done;
      return o.quantity - remaining;
    }

    method SubmitOrder(o: IncomingOrder)
      requires book.Valid()
      modifies `events, book, book.flat, book.pool, book.pool.slots, book.index, book.index.slots
      ensures book.Valid()
      ensures var (b', more) := Submit(old(book.State()), book.pool.capacity, preventSelfTrade, o);
              book.State() == b' && events == old(events) + more
    {
      hide Consistent, HashMap.OpenAddressingHashMap.Valid, HashMap.OpenAddressingHashMap.Contents,
        Pool.ObjectPool.Valid, Filter, WellFormed, Match, Available, Add, Events;
      if o.quantity == 0 {
        return;
      }
      if o.kind == FOK {
        var available := AvailableLiquidity(o);
        if available < o.quantity {
          events := events + [KillEvent(o.ref, o.quantity)];
          return;
        }
      }
      var filled := ExecuteMatch(o);
      var remaining := o.quantity - filled;
      if remaining == 0 {
        return;
      }
      if o.kind == Limit {
        var added := book.AddOrder(o.ref, o.price, remaining, o.isBuy, o.trader);
        events := events + [RestEvent(o.ref, o.price, remaining, o.isBuy)];
      } else {
        events := events + [KillEvent(o.ref, remaining)];
      }
    }
  }

  lemma PrefixStart(queue: seq<Resting>, t: Test, start: Shares)
    ensures start == Wrap32(start + Sum(Filter(queue[..0], t)))
  {
    assert queue[..0] == [];
  }

  lemma NoEvents(o: IncomingOrder, events: seq<Event>)
    ensures events + Events(o, []) == events
  {
  }

  lemma WrapTwice(x: nat, y: nat)
    ensures Wrap32(x + Wrap32(y)) == Wrap32(x + y)
  {
    WrapStep(y, x, x + y);
  }

  lemma AvailableUnfolds(live: seq<Resting>, stp: bool, o: IncomingOrder, p: Price4, total: Shares)
    requires total < o.quantity && Crosses(o, p)
    ensures Available(live, stp, o, Some(p), total)
         == Available(live, stp, o, NextVisible(live, p, !o.isBuy), Wrap32(total + LevelLiquidity(live, stp, o, p)))
  {
    hide Crosses, NextVisible, LevelLiquidity, Wrap32;
  }

  lemma AvailableStops(live: seq<Resting>, stp: bool, o: IncomingOrder, level: Option<Price4>, total: Shares)
    requires level.None? || total >= o.quantity || !Crosses(o, level.value)
    ensures Available(live, stp, o, level, total) == total
  {
  }

  lemma PrefixGrows(queue: seq<Resting>, t: Test, i: nat)
    requires i < |queue|
    ensures Filter(queue[..i + 1], t) == Filter(queue[..i], t) + Keep(queue[i], t)
    ensures Sum(Filter(queue[..i + 1], t))
            == Sum(Filter(queue[..i], t)) + (if t.Holds(queue[i]) then queue[i].shares else 0)
  {
    assert queue[..i + 1] == queue[..i] + [queue[i]];
    FilterAppend(queue[..i], queue[i], t);
    SumKeep(Filter(queue[..i], t), queue[i], t);
  }

  lemma PrefixStep(queue: seq<Resting>, t: Test, i: nat, start: Shares)
    requires i < |queue|
    ensures var before, after := start + Sum(Filter(queue[..i], t)), start + Sum(Filter(queue[..i + 1], t));
            Wrap32(after) == if t.Holds(queue[i]) then Wrap32(Wrap32(before) + queue[i].shares) else Wrap32(before)
  {
    hide Filter, Sum;
    PrefixGrows(queue, t, i);
    if t.Holds(queue[i]) {
      WrapStep(start + Sum(Filter(queue[..i], t)), queue[i].shares, start + Sum(Filter(queue[..i + 1], t)));
    }
  }

  /** The first eligible order of a queue, with only barred ones before it. */
  lemma FirstOfFilter(queue: seq<Resting>, t: Test, i: nat)
    requires i < |queue| && t.Holds(queue[i]) && Filter(queue[..i], t) == []
    ensures Filter(queue, t) != [] && Filter(queue, t)[0] == queue[i]
  {
    hide Filter, Sum;
    PrefixGrows(queue, t, i);
    FilterConcat(queue[..i + 1], queue[i + 1..], t);
    assert queue == queue[..i + 1] + queue[i + 1..];
  }

  lemma {:induction false} EventsAppend(o: IncomingOrder, fills: seq<Fill>, f: Fill)
    ensures Events(o, fills + [f]) == Events(o, fills) + [FillEvent(o.ref, f.resting, f.price, f.quantity)]
  {
    if fills == [] {
      assert [f][1..] == [];
    } else {
      EventsAppend(o, fills[1..], f);
      assert (fills + [f])[1..] == fills[1..] + [f];
    }
  }

  /** One iteration of the walk, from the outside. */
  lemma MatchUnfolds(b: BookState, capacity: nat, stp: bool, o: IncomingOrder, remaining: Shares)
    requires WellFormed(b, capacity)
    ensures remaining == 0 || NextResting(b, stp, o).None?
            ==> Match(b, capacity, stp, o, remaining) == (b, [], remaining)
    ensures remaining > 0 && NextResting(b, stp, o).Some? ==>
              var x := NextResting(b, stp, o).value;
              var quantity := Min(remaining, x.shares);
              && WellFormed(Reduce(b, x.ref, quantity).0, capacity)
              && 0 < quantity <= remaining
              && var (b', fills, left) := Match(Reduce(b, x.ref, quantity).0, capacity, stp, o, remaining - quantity);
                 Match(b, capacity, stp, o, remaining) == (b', [Fill(x.ref, x.price, quantity)] + fills, left)
  {
    hide WellFormed, NextResting, Lookup, Reduce;
    if remaining > 0 && NextResting(b, stp, o).Some? {
      NextRestingIsLive(b, capacity, stp, o);
      var x := NextResting(b, stp, o).value;
      ReduceWellFormed(b, capacity, x.ref, Min(remaining, x.shares));
    }
  }
}
