/**
 What the matching engine means. `Match` follows the engine's walk step by step
 over the book's meaning; `Consume` over `Reachable` is an independent, greedy
 description of its fills; `Liquidity` is an order-free description of what its
 dry run measures. The lemmas say how these agree, and what whole runs keep.
 */
module EngineSpec {
  import opened BookSpec
  import opened ItchTypes
  import opened Options
  import opened Orders
  import opened Words

  datatype OrderType = Limit | Market | IOC | FOK

  /** An order arriving at the engine; `price` is ignored for Market. */
  datatype IncomingOrder = IncomingOrder(ref: OrderRef, price: Price4, quantity: Shares, isBuy: bool, kind: OrderType,
                                         trader: TraderId)

  datatype Event =
    | FillEvent(aggressor: OrderRef, resting: OrderRef, price: Price4, quantity: Shares)
    | RestEvent(ref: OrderRef, price: Price4, quantity: Shares, isBuy: bool)
    | KillEvent(ref: OrderRef, quantity: Shares)

  /** A fill, still without its aggressor. */
  datatype Fill = Fill(resting: OrderRef, price: Price4, quantity: Shares)

  predicate StpActive(stp: bool, o: IncomingOrder) {
    stp && o.trader != 0
  }

  /** Self-trade prevention bars orders of the same trader, unless either side has no trader. */
  predicate Eligible(stp: bool, o: IncomingOrder, x: Resting) {
    !StpActive(stp, o) || x.trader != o.trader
  }

  function EligibleTest(stp: bool, o: IncomingOrder): Test {
    if StpActive(stp, o) then NotTrader(o.trader) else Anyone
  }

  function EligibleOf(queue: seq<Resting>, stp: bool, o: IncomingOrder): seq<Resting> {
    Filter(queue, EligibleTest(stp, o))
  }

  predicate Crosses(o: IncomingOrder, p: Price4) {
    o.kind == Market || (if o.isBuy then p <= o.price else p >= o.price)
  }

  // ----- the engine's own walk -----

  /** The resting order that the next iteration of the walk fills against, if it goes on. */
  function NextResting(b: BookState, stp: bool, o: IncomingOrder): Option<Resting> {
    match b.Best(!o.isBuy)
    case None => None
    case Some(p) =>
      var e := EligibleOf(Queue(b.live, p, !o.isBuy), stp, o);
      if !Crosses(o, p) || e == [] then None else Some(e[0])
  }

  lemma NextRestingIsLive(b: BookState, capacity: nat, stp: bool, o: IncomingOrder)
    requires WellFormed(b, capacity) && NextResting(b, stp, o).Some?
    ensures var x := NextResting(b, stp, o).value;
            && x in b.live && x.shares > 0 && x.isBuy == !o.isBuy
            && b.Best(!o.isBuy) == Some(x.price) && Crosses(o, x.price) && Lookup(b.live, x.ref) == Some(x)
  {
    var p := b.Best(!o.isBuy).value;
    var q := Queue(b.live, p, !o.isBuy);
    var x := NextResting(b, stp, o).value;
    assert x in EligibleOf(q, stp, o);
    FilterMembers(q, EligibleTest(stp, o));
    FilterMembers(b.live, AtLevel(p, !o.isBuy));
    LookupFinds(b.live, x);
  }

  /** The mutating walk: fills against the best level's first eligible order until it must stop. */
  ghost function Match(b: BookState, capacity: nat, stp: bool, o: IncomingOrder,
                       remaining: Shares): (r: (BookState, seq<Fill>, Shares))
    requires WellFormed(b, capacity)
    ensures WellFormed(r.0, capacity) && r.2 <= remaining
    decreases remaining
  {
    if remaining == 0 || NextResting(b, stp, o).None? then (b, [], remaining)
    else
      NextRestingIsLive(b, capacity, stp, o);
      var x := NextResting(b, stp, o).value;
      var quantity := Min(remaining, x.shares);
      ReduceWellFormed(b, capacity, x.ref, quantity);
      var (b', fills, left) := Match(Reduce(b, x.ref, quantity).0, capacity, stp, o, remaining - quantity);
      (b', [Fill(x.ref, x.price, quantity)] + fills, left)
  }

  function Events(o: IncomingOrder, fills: seq<Fill>): seq<Event> {
    if fills == [] then []
    else [FillEvent(o.ref, fills[0].resting, fills[0].price, fills[0].quantity)] + Events(o, fills[1..])
  }

  /** What the dry run adds for one level, before wrapping. */
  function LevelLiquidity(live: seq<Resting>, stp: bool, o: IncomingOrder, p: Price4): nat {
    Sum(EligibleOf(Queue(live, p, !o.isBuy), stp, o))
  }

  /** How many prices are left beyond `p` for a walk to visit. */
  function Beyond(p: Price4, isBuy: bool): nat {
    if isBuy then p else TWO_TO_32 - p
  }

  /** The dry run: sums level after level in 32 bits until it has enough or must stop. */
  ghost function Available(live: seq<Resting>, stp: bool, o: IncomingOrder, level: Option<Price4>,
                           total: Shares): Shares
    decreases if level.None? then 0 else 1 + Beyond(level.value, !o.isBuy)
  {
    if level.None? || total >= o.quantity || !Crosses(o, level.value) then total
    else
      Available(live, stp, o, NextVisible(live, level.value, !o.isBuy),
                Wrap32(total + LevelLiquidity(live, stp, o, level.value)))
  }

  /** One submission: the new book and the events, in order. */
  ghost function Submit(b: BookState, capacity: nat, stp: bool, o: IncomingOrder): (BookState, seq<Event>)
    requires WellFormed(b, capacity)
  {
    if o.quantity == 0 then (b, [])
    else if o.kind == FOK && Available(b.live, stp, o, b.Best(!o.isBuy), 0) < o.quantity
      then (b, [KillEvent(o.ref, o.quantity)])
    else
      var (b', fills, left) := Match(b, capacity, stp, o, o.quantity);
      if left == 0 then (b', Events(o, fills))
      else if o.kind == Limit then
        (Add(b', capacity, Resting(o.ref, o.price, left, o.isBuy, o.trader)).0,
         Events(o, fills) + [RestEvent(o.ref, o.price, left, o.isBuy)])
      else (b', Events(o, fills) + [KillEvent(o.ref, left)])
  }

  // ----- the greedy description of the fills -----

  /** The next price that really has orders, strictly worse than `p`. */
  ghost function NextPrice(live: seq<Resting>, p: Price4, isBuy: bool): Option<Price4> {
    BestIn(WorseThan(Prices(live, isBuy), p, isBuy), isBuy)
  }

  /**
   The eligible orders in (price, arrival) order over the crossing levels, up to
   and including the first level that holds a barred order.
   */
  ghost function Reachable(live: seq<Resting>, stp: bool, o: IncomingOrder, level: Option<Price4>): seq<Resting>
    decreases if level.None? then 0 else 1 + Beyond(level.value, !o.isBuy)
  {
    if level.None? || !Crosses(o, level.value) then []
    else
      var q := Queue(live, level.value, !o.isBuy);
      var e := EligibleOf(q, stp, o);
      e + (if e == q then Reachable(live, stp, o, NextPrice(live, level.value, !o.isBuy)) else [])
  }

  ghost function ReachableNow(live: seq<Resting>, stp: bool, o: IncomingOrder): seq<Resting> {
    Reachable(live, stp, o, BestIn(Prices(live, !o.isBuy), !o.isBuy))
  }

  /** Takes from the front of the list as much as is wanted. */
  function Consume(orders: seq<Resting>, wanted: Shares): seq<Fill> {
    if wanted == 0 || orders == [] then []
    else
      var quantity := Min(wanted, orders[0].shares);
      [Fill(orders[0].ref, orders[0].price, quantity)] + Consume(orders[1..], wanted - quantity)
  }

  function Filled(fills: seq<Fill>): nat {
    if fills == [] then 0 else fills[0].quantity + Filled(fills[1..])
  }

  /** The book after some fills, each an ordinary execution. */
  ghost function AfterFills(b: BookState, fills: seq<Fill>): BookState
    decreases |fills|
  {
    if fills == [] then b else AfterFills(Reduce(b, fills[0].resting, fills[0].quantity).0, fills[1..])
  }

  lemma {:induction false} FrontSum(s: seq<Resting>)
    requires s != []
    ensures Sum(s) == s[0].shares + Sum(s[1..])
  {
    assert s == [s[0]] + s[1..];
    SumConcat([s[0]], s[1..]);
    SumAppend([], s[0]);
    assert [] + [s[0]] == [s[0]];
  }

  /** Greedy consumption takes the smaller of what is wanted and what there is. */
  lemma {:induction false} ConsumeTakesMin(orders: seq<Resting>, wanted: Shares)
    ensures Filled(Consume(orders, wanted)) == Min(wanted, Sum(orders))
    decreases |orders|
  {
    if wanted > 0 && orders != [] {
      FrontSum(orders);
      var quantity := Min(wanted, orders[0].shares);
      ConsumeTakesMin(orders[1..], wanted - quantity);
      assert Consume(orders, wanted)[1..] == Consume(orders[1..], wanted - quantity);
    }
  }

  ghost predicate SameBeyond(live: seq<Resting>, live': seq<Resting>, p: Price4, isBuy: bool) {
    forall r :: Better(p, r, isBuy) ==> Queue(live', r, isBuy) == Queue(live, r, isBuy)
  }

  /** A list of levels depends only on the queues it passes. */
  lemma {:induction false} ReachableFrame(live: seq<Resting>, live': seq<Resting>, stp: bool, o: IncomingOrder,
                                          p: Price4, level: Option<Price4>)
    requires level.Some? ==> Better(p, level.value, !o.isBuy)
    requires SameBeyond(live, live', p, !o.isBuy)
    ensures Reachable(live', stp, o, level) == Reachable(live, stp, o, level)
    decreases if level.None? then 0 else 1 + Beyond(level.value, !o.isBuy)
  {
    if level.Some? && Crosses(o, level.value) {
      assert SameBeyond(live, live', level.value, !o.isBuy);
      NextPriceFrame(live, live', level.value, !o.isBuy);
      ReachableFrame(live, live', stp, o, p, NextPrice(live, level.value, !o.isBuy));
    }
  }

  lemma NextPriceFrame(live: seq<Resting>, live': seq<Resting>, p: Price4, isBuy: bool)
    requires SameBeyond(live, live', p, isBuy)
    ensures NextPrice(live', p, isBuy) == NextPrice(live, p, isBuy)
    ensures NextPrice(live, p, isBuy).Some? ==> Better(p, NextPrice(live, p, isBuy).value, isBuy)
  {
    forall r | Better(p, r, isBuy)
      ensures r in Prices(live', isBuy) <==> r in Prices(live, isBuy)
    {
      QueueEmptyIffNoPrice(live, r, isBuy);
      QueueEmptyIffNoPrice(live', r, isBuy);
    }
    assert WorseThan(Prices(live', isBuy), p, isBuy) == WorseThan(Prices(live, isBuy), p, isBuy);
  }

  /** Removing or reducing an order changes no queue but its own. */
  lemma OtherQueueKept(live: seq<Resting>, x: Resting, n: Shares, r: Price4, isBuy: bool)
    requires DistinctRefs(live) && x in live && (r != x.price || isBuy != x.isBuy)
    ensures Queue(Filter(live, NotRef(x.ref)), r, isBuy) == Queue(live, r, isBuy)
    ensures Queue(WithShares(live, x.ref, n), r, isBuy) == Queue(live, r, isBuy)
  {
    hide Filter, WithShares, DistinctRefs;
    FilterCommutes(live, NotRef(x.ref), AtLevel(r, isBuy));
    FilterWithShares(live, x.ref, n, AtLevel(r, isBuy));
    FilterMembers(live, AtLevel(r, isBuy));
    forall y | y in Queue(live, r, isBuy)
      ensures y.ref != x.ref
    {
      if y.ref == x.ref {
        SameRefSameOrder(live, x, y);
      }
    }
    FilterAll(Queue(live, r, isBuy), NotRef(x.ref));
    WithSharesAbsent(Queue(live, r, isBuy), x.ref, n);
  }

  /** Removing a fully filled order changes nothing beyond its own level. */
  lemma RemovalSameBeyond(live: seq<Resting>, x: Resting)
    requires DistinctRefs(live) && x in live
    ensures SameBeyond(live, Filter(live, NotRef(x.ref)), x.price, x.isBuy)
    ensures Queue(Filter(live, NotRef(x.ref)), x.price, x.isBuy) == Filter(Queue(live, x.price, x.isBuy), NotRef(x.ref))
  {
    hide Filter, DistinctRefs;
    FilterCommutes(live, NotRef(x.ref), AtLevel(x.price, x.isBuy));
    forall r | Better(x.price, r, x.isBuy)
      ensures Queue(Filter(live, NotRef(x.ref)), r, x.isBuy) == Queue(live, r, x.isBuy)
    {
      OtherQueueKept(live, x, 0, r, x.isBuy);
    }
  }

  /** Filtering keeps everything exactly when everything passes. */
  lemma FilterKeepsAll(s: seq<Resting>, t: Test)
    ensures Filter(s, t) == s <==> forall y :: y in s ==> t.Holds(y)
  {
    FilterMembers(s, t);
    if forall y :: y in s ==> t.Holds(y) {
      FilterAll(s, t);
    }
  }

  /**
   Dropping the first eligible order of a queue drops the first of its eligible orders,
   and bars no more and no fewer.
   */
  lemma FirstEligibleDropped(q: seq<Resting>, stp: bool, o: IncomingOrder)
    requires DistinctRefs(q) && EligibleOf(q, stp, o) != []
    ensures var x := EligibleOf(q, stp, o)[0];
            var q' := Filter(q, NotRef(x.ref));
            && EligibleOf(q', stp, o) == EligibleOf(q, stp, o)[1..]
            && (EligibleOf(q', stp, o) == q' <==> EligibleOf(q, stp, o) == q)
  {
    hide Filter, DistinctRefs;
    var t := EligibleTest(stp, o);
    var e := Filter(q, t);
    var x := e[0];
    var q' := Filter(q, NotRef(x.ref));
    FilterCommutes(q, NotRef(x.ref), t);
    FilterDistinct(q, t);
    FilterNotRefAt(e, 0);
    assert e[..0] + e[1..] == e[1..];
    FilterMembers(q, t);
    FilterMembers(q, NotRef(x.ref));
    FilterKeepsAll(q, t);
    FilterKeepsAll(q', t);
    assert x in e;
    forall y | y in q && t.Holds(y) != t.Holds(x)
      ensures y in q'
    {
      if y.ref == x.ref {
        SameRefSameOrder(q, x, y);
      }
    }
  }

  /** After the front candidate is filled completely, the candidates are the rest of the list. */
  lemma FrontFilled(b: BookState, capacity: nat, stp: bool, o: IncomingOrder)
    requires WellFormed(b, capacity) && BestIsTrue(b) && NextResting(b, stp, o).Some?
    ensures ReachableNow(b.live, stp, o) != [] && ReachableNow(b.live, stp, o)[0] == NextResting(b, stp, o).value
    ensures ReachableNow(Filter(b.live, NotRef(NextResting(b, stp, o).value.ref)), stp, o)
            == ReachableNow(b.live, stp, o)[1..]
  {
    hide Filter, DistinctRefs, AllPositive;
    var isBuy := !o.isBuy;
    var x := NextResting(b, stp, o).value;
    NextRestingIsLive(b, capacity, stp, o);
    var p := x.price;
    var live := b.live;
    var live' := Filter(live, NotRef(x.ref));
    var q, q' := Queue(live, p, isBuy), Queue(live', p, isBuy);
    PricesAfterRemoval(live, x);
    RemovalSameBeyond(live, x);
    FilterDistinct(live, AtLevel(p, isBuy));
    FirstEligibleDropped(q, stp, o);
    NextPriceFrame(live, live', p, isBuy);
    var next := NextPrice(live, p, isBuy);
    ReachableFrame(live, live', stp, o, p, next);
    if q' == [] {
      OnlyOrderGone(live, live', p, isBuy);
      FilterNone(q', EligibleTest(stp, o));
    } else {
      BestIsUnique(Prices(live', isBuy), isBuy, Some(p));
    }
  }

  /** When the best level empties, the next price is the new best. */
  lemma OnlyOrderGone(live: seq<Resting>, live': seq<Resting>, p: Price4, isBuy: bool)
    requires BestIn(Prices(live, isBuy), isBuy) == Some(p)
    requires Prices(live', isBuy) == Prices(live, isBuy) - {p}
    ensures BestIn(Prices(live', isBuy), isBuy) == NextPrice(live, p, isBuy)
  {
    assert WorseThan(Prices(live, isBuy), p, isBuy) == Prices(live', isBuy);
  }

  lemma StoppedMeansNothingReachable(b: BookState, capacity: nat, stp: bool, o: IncomingOrder)
    requires WellFormed(b, capacity) && BestIsTrue(b) && NextResting(b, stp, o).None?
    ensures ReachableNow(b.live, stp, o) == []
  {
    if b.Best(!o.isBuy).Some? {
      QueueEmptyIffNoPrice(b.live, b.Best(!o.isBuy).value, !o.isBuy);
    }
  }

  lemma FullyFilledIsRemoved(b: BookState, x: Resting)
    requires Lookup(b.live, x.ref) == Some(x) && x.shares > 0
    ensures Reduce(b, x.ref, x.shares).0.live == Filter(b.live, NotRef(x.ref))
  {
  }

  // ----- when an execution of the walk misses the next best level -----

  /** Some execution of the walk makes a rescan that cannot see the level that is then best. */
  ghost predicate WalkMisses(b: BookState, capacity: nat, stp: bool, o: IncomingOrder, remaining: Shares)
    requires WellFormed(b, capacity)
    decreases remaining
  {
    && remaining > 0
    && NextResting(b, stp, o).Some?
    && (NextRestingIsLive(b, capacity, stp, o);
        var x := NextResting(b, stp, o).value;
        var quantity := Min(remaining, x.shares);
        || ReductionMisses(b, x.ref, quantity)
        || (ReduceWellFormed(b, capacity, x.ref, quantity);
            WalkMisses(Reduce(b, x.ref, quantity).0, capacity, stp, o, remaining - quantity)))
  }

  /** Some such execution leaves shares still wanted, so that the walk goes on past the level it missed. */
  ghost predicate WalkStrays(b: BookState, capacity: nat, stp: bool, o: IncomingOrder, remaining: Shares)
    requires WellFormed(b, capacity)
    decreases remaining
  {
    && remaining > 0
    && NextResting(b, stp, o).Some?
    && (NextRestingIsLive(b, capacity, stp, o);
        var x := NextResting(b, stp, o).value;
        var quantity := Min(remaining, x.shares);
        || (ReductionMisses(b, x.ref, quantity) && quantity < remaining)
        || (ReduceWellFormed(b, capacity, x.ref, quantity);
            WalkStrays(Reduce(b, x.ref, quantity).0, capacity, stp, o, remaining - quantity)))
  }

  lemma {:induction false} StrayingIsMissing(b: BookState, capacity: nat, stp: bool, o: IncomingOrder,
                                             remaining: Shares)
    requires WellFormed(b, capacity) && WalkStrays(b, capacity, stp, o, remaining)
    ensures WalkMisses(b, capacity, stp, o, remaining)
    decreases remaining
  {
    hide WellFormed, NextResting, Lookup, Reduce, ReductionMisses;
    NextRestingIsLive(b, capacity, stp, o);
    var x := NextResting(b, stp, o).value;
    var quantity := Min(remaining, x.shares);
    ReduceWellFormed(b, capacity, x.ref, quantity);
    if !ReductionMisses(b, x.ref, quantity) {
      StrayingIsMissing(Reduce(b, x.ref, quantity).0, capacity, stp, o, remaining - quantity);
    }
  }

  /** While the side walked stays below 2^32 shares the walk never misses. */
  lemma {:induction false} SmallWalkNeverMisses(b: BookState, capacity: nat, stp: bool, o: IncomingOrder,
                                                remaining: Shares)
    requires WellFormed(b, capacity) && SideTotal(b.live, !o.isBuy) < TWO_TO_32
    ensures !WalkMisses(b, capacity, stp, o, remaining)
    decreases remaining
  {
    hide WellFormed, SideTotal, NextResting, Lookup, Reduce, Sum, RemovalMisses;
    if remaining > 0 && NextResting(b, stp, o).Some? {
      NextRestingIsLive(b, capacity, stp, o);
      var x := NextResting(b, stp, o).value;
      var quantity := Min(remaining, x.shares);
      SmallSideRemovalSees(b, capacity, x);
      ReduceWellFormed(b, capacity, x.ref, quantity);
      ReduceTotals(b, capacity, x.ref, quantity);
      SmallWalkNeverMisses(Reduce(b, x.ref, quantity).0, capacity, stp, o, remaining - quantity);
    }
  }

  /** The true best level of the side has a zero counter and is not the cached one. */
  ghost predicate HidesBest(b: BookState, isBuy: bool) {
    var best := BestIn(Prices(b.live, isBuy), isBuy);
    best.Some? && b.Best(isBuy) != best && SharesAt(b.live, best.value, isBuy) == 0
  }

  lemma MissHides(b: BookState, x: Resting)
    requires RemovalMisses(b, x)
    ensures HidesBest(RemoveFully(b, x), x.isBuy)
  {
    hide Filter, Queue;
  }

  /** Executions at the cached best price never uncover a better level that hides. */
  lemma HiddenStays(b: BookState, capacity: nat, x: Resting, quantity: Shares)
    requires WellFormed(b, capacity) && HidesBest(b, x.isBuy)
    requires x in b.live && b.Best(x.isBuy) == Some(x.price) && 0 < quantity <= x.shares
    ensures HidesBest(Reduce(b, x.ref, quantity).0, x.isBuy)
  {
    hide Filter, Queue, Sum, WithShares, DistinctRefs, AllPositive;
    var side := x.isBuy;
    var best := BestIn(Prices(b.live, side), side);
    var n := x.shares - quantity;
    var b' := Reduce(b, x.ref, quantity).0;
    LookupFinds(b.live, x);
    OtherQueueKept(b.live, x, n, best.value, side);
    PricesWithShares(b.live, x.ref, n);
    PricesAfterRemoval(b.live, x);
    BestIsUnique(Prices(b'.live, side), side, best);
    assert SharesAt(b'.live, best.value, side) == 0;
  }

  lemma {:induction false} HiddenStaysThroughWalk(b: BookState, capacity: nat, stp: bool, o: IncomingOrder,
                                                  remaining: Shares)
    requires WellFormed(b, capacity) && HidesBest(b, !o.isBuy)
    ensures HidesBest(Match(b, capacity, stp, o, remaining).0, !o.isBuy)
    decreases remaining
  {
    hide WellFormed, HidesBest, NextResting, Lookup, Reduce;
    if remaining > 0 && NextResting(b, stp, o).Some? {
      NextRestingIsLive(b, capacity, stp, o);
      var x := NextResting(b, stp, o).value;
      var quantity := Min(remaining, x.shares);
      ReduceWellFormed(b, capacity, x.ref, quantity);
      HiddenStays(b, capacity, x, quantity);
      HiddenStaysThroughWalk(Reduce(b, x.ref, quantity).0, capacity, stp, o, remaining - quantity);
    }
  }

  /** A walk leaves the cached best prices true exactly when none of its rescans misses. */
  lemma {:induction false} WalkKeepsBestExactly(b: BookState, capacity: nat, stp: bool, o: IncomingOrder,
                                                remaining: Shares)
    requires WellFormed(b, capacity) && BestIsTrue(b)
    ensures BestIsTrue(Match(b, capacity, stp, o, remaining).0) <==> !WalkMisses(b, capacity, stp, o, remaining)
    decreases remaining
  {
    hide WellFormed, HidesBest, NextResting, Lookup, Reduce, ReductionMisses, BestIsTrue;
    if remaining > 0 && NextResting(b, stp, o).Some? {
      NextRestingIsLive(b, capacity, stp, o);
      var x := NextResting(b, stp, o).value;
      var quantity := Min(remaining, x.shares);
      var b1 := Reduce(b, x.ref, quantity).0;
      ReduceWellFormed(b, capacity, x.ref, quantity);
      ReductionExact(b, capacity, x.ref, quantity);
      if ReductionMisses(b, x.ref, quantity) {
        MissedReductionHides(b, x, quantity);
        HiddenStaysThroughWalk(b1, capacity, stp, o, remaining - quantity);
        HidesBestIsFalse(Match(b1, capacity, stp, o, remaining - quantity).0, !o.isBuy);
      } else {
        WalkKeepsBestExactly(b1, capacity, stp, o, remaining - quantity);
      }
    }
  }

  lemma MissedReductionHides(b: BookState, x: Resting, quantity: Shares)
    requires Lookup(b.live, x.ref) == Some(x) && x.shares > 0 && ReductionMisses(b, x.ref, quantity)
    ensures HidesBest(Reduce(b, x.ref, quantity).0, x.isBuy)
  {
    hide RemovalMisses, RemoveFully, HidesBest;
    MissHides(b, x);
  }

  lemma HidesBestIsFalse(b: BookState, isBuy: bool)
    requires HidesBest(b, isBuy)
    ensures !BestIsTrue(b)
  {
  }

  /** Whatever hides: the book after a walk is the book with just its fills executed. */
  lemma {:induction false} MatchExecutesFills(b: BookState, capacity: nat, stp: bool, o: IncomingOrder,
                                              remaining: Shares)
    requires WellFormed(b, capacity)
    ensures var (b', fills, left) := Match(b, capacity, stp, o, remaining);
            b' == AfterFills(b, fills) && left == remaining - Filled(fills)
    decreases remaining
  {
    hide NextResting, Lookup, WellFormed, Reduce;
    if remaining > 0 && NextResting(b, stp, o).Some? {
      NextRestingIsLive(b, capacity, stp, o);
      var x := NextResting(b, stp, o).value;
      var quantity := Min(remaining, x.shares);
      var b1 := Reduce(b, x.ref, quantity).0;
      ReduceWellFormed(b, capacity, x.ref, quantity);
      MatchExecutesFills(b1, capacity, stp, o, remaining - quantity);
      var (b', fills, left) := Match(b1, capacity, stp, o, remaining - quantity);
      var all := [Fill(x.ref, x.price, quantity)] + fills;
      assert all[1..] == fills;
      assert Match(b, capacity, stp, o, remaining) == (b', all, left);
    }
  }

  /**
   The fills of a walk that never strays are the greedy prefix of the reachable
   orders, for any self-trade setting; the book after any walk is the book with just
   its fills executed, and its cached bests are true exactly if the walk never misses.
   */
  lemma {:induction false} MatchIsGreedy(b: BookState, capacity: nat, stp: bool, o: IncomingOrder, remaining: Shares)
    requires WellFormed(b, capacity) && BestIsTrue(b)
    ensures var (b', fills, left) := Match(b, capacity, stp, o, remaining);
            && (!WalkStrays(b, capacity, stp, o, remaining)
                ==> fills == Consume(ReachableNow(b.live, stp, o), remaining))
            && b' == AfterFills(b, fills)
            && left == remaining - Filled(fills)
            && (BestIsTrue(b') <==> !WalkMisses(b, capacity, stp, o, remaining))
    decreases remaining
  {
    hide Filter, DistinctRefs, ReachableNow, NextResting, Lookup, WellFormed, BestIsTrue, Reduce, Crosses, Sum,
      ReductionMisses, AfterFills, Filled;
    MatchExecutesFills(b, capacity, stp, o, remaining);
    WalkKeepsBestExactly(b, capacity, stp, o, remaining);
    if remaining > 0 && !WalkStrays(b, capacity, stp, o, remaining) {
      if NextResting(b, stp, o).None? {
        StoppedMeansNothingReachable(b, capacity, stp, o);
      } else {
        NextRestingIsLive(b, capacity, stp, o);
        var x := NextResting(b, stp, o).value;
        var quantity := Min(remaining, x.shares);
        var b1 := Reduce(b, x.ref, quantity).0;
        ReduceWellFormed(b, capacity, x.ref, quantity);
        ReductionExact(b, capacity, x.ref, quantity);
        FrontFilled(b, capacity, stp, o);
        if quantity < remaining {
          MatchIsGreedy(b1, capacity, stp, o, remaining - quantity);
          FullyFilledIsRemoved(b, x);
        }
      }
    }
  }

  // ----- the fills of every walk, missing or not -----

  /** The eligible orders as the walk meets them: from `level` on, level after visible level. */
  ghost function Seen(live: seq<Resting>, stp: bool, o: IncomingOrder, level: Option<Price4>): seq<Resting>
    decreases if level.None? then 0 else 1 + Beyond(level.value, !o.isBuy)
  {
    if level.None? || !Crosses(o, level.value) then []
    else
      var q := Queue(live, level.value, !o.isBuy);
      var e := EligibleOf(q, stp, o);
      e + (if e == q then Seen(live, stp, o, NextVisible(live, level.value, !o.isBuy)) else [])
  }

  /** No visible level is better than the cached best one. */
  ghost predicate Leads(b: BookState, isBuy: bool) {
    match b.Best(isBuy)
    case None => Visible(b.live, isBuy) == {}
    case Some(p) => forall r :: r in Visible(b.live, isBuy) ==> !Better(r, p, isBuy)
  }

  lemma TrueBestLeads(b: BookState, isBuy: bool)
    requires BestIsTrue(b)
    ensures Leads(b, isBuy)
  {
    hide Filter, Sum, Queue;
    assert b.Best(isBuy) == BestIn(Prices(b.live, isBuy), isBuy);
    assert Visible(b.live, isBuy) <= Prices(b.live, isBuy);
  }

  lemma SameVisibleBeyond(live: seq<Resting>, live': seq<Resting>, p: Price4, isBuy: bool)
    requires SameBeyond(live, live', p, isBuy)
    ensures WorseThan(Visible(live', isBuy), p, isBuy) == WorseThan(Visible(live, isBuy), p, isBuy)
  {
    hide Filter, Sum, Queue, Prices;
    forall r | Better(p, r, isBuy)
      ensures r in Visible(live', isBuy) <==> r in Visible(live, isBuy)
    {
      assert Queue(live', r, isBuy) == Queue(live, r, isBuy);
      QueueEmptyIffNoPrice(live, r, isBuy);
      QueueEmptyIffNoPrice(live', r, isBuy);
    }
  }

  lemma {:induction false} SeenFrame(live: seq<Resting>, live': seq<Resting>, stp: bool, o: IncomingOrder, p: Price4,
                                     level: Option<Price4>)
    requires level.Some? ==> Better(p, level.value, !o.isBuy)
    requires SameBeyond(live, live', p, !o.isBuy)
    ensures Seen(live', stp, o, level) == Seen(live, stp, o, level)
    decreases if level.None? then 0 else 1 + Beyond(level.value, !o.isBuy)
  {
    hide Filter, Sum, Visible;
    if level.Some? && Crosses(o, level.value) {
      assert Queue(live', level.value, !o.isBuy) == Queue(live, level.value, !o.isBuy);
      assert SameBeyond(live, live', level.value, !o.isBuy);
      SameVisibleBeyond(live, live', level.value, !o.isBuy);
      SeenFrame(live, live', stp, o, p, NextVisible(live, level.value, !o.isBuy));
    }
  }

  /** Another level is as visible after an order is gone as before. */
  lemma OtherStaysVisible(live: seq<Resting>, x: Resting, r: Price4)
    requires DistinctRefs(live) && x in live && r != x.price
    ensures r in Visible(Filter(live, NotRef(x.ref)), x.isBuy) <==> r in Visible(live, x.isBuy)
  {
    hide Filter, Sum, Queue, Prices;
    OtherQueueKept(live, x, 0, r, x.isBuy);
    QueueEmptyIffNoPrice(live, r, x.isBuy);
    QueueEmptyIffNoPrice(Filter(live, NotRef(x.ref)), r, x.isBuy);
  }

  /** After the front order is filled, the walk's new cached best leads again. */
  lemma FillKeepsLead(b: BookState, capacity: nat, x: Resting)
    requires WellFormed(b, capacity) && Leads(b, x.isBuy)
    requires x in b.live && x.shares > 0 && Lookup(b.live, x.ref) == Some(x) && b.Best(x.isBuy) == Some(x.price)
    ensures var b' := Reduce(b, x.ref, x.shares).0;
            && Leads(b', x.isBuy)
            && b'.live == Filter(b.live, NotRef(x.ref))
            && (if Queue(b'.live, x.price, x.isBuy) != [] then b'.Best(x.isBuy) == Some(x.price)
                else b'.Best(x.isBuy) == NextVisible(b.live, x.price, x.isBuy))
  {
    hide Filter, Sum, Queue, Prices, Visible, DistinctRefs, AllPositive, SharesAt;
    var side, p := x.isBuy, x.price;
    var live' := Filter(b.live, NotRef(x.ref));
    forall r | r != p
      ensures r in Visible(live', side) <==> r in Visible(b.live, side)
    {
      OtherStaysVisible(b.live, x, r);
    }
    if Queue(live', p, side) == [] {
      NoneVisibleAt(live', p, side);
      assert Visible(live', side) == WorseThan(Visible(b.live, side), p, side);
    }
  }

  lemma NoneVisibleAt(live: seq<Resting>, p: Price4, isBuy: bool)
    requires Queue(live, p, isBuy) == []
    ensures p !in Visible(live, isBuy)
  {
    QueueEmptyIffNoPrice(live, p, isBuy);
  }

  lemma SeenFrontFilled(b: BookState, capacity: nat, stp: bool, o: IncomingOrder)
    requires WellFormed(b, capacity) && Leads(b, !o.isBuy) && NextResting(b, stp, o).Some?
    ensures var x := NextResting(b, stp, o).value;
            var b' := Reduce(b, x.ref, x.shares).0;
            var seen := Seen(b.live, stp, o, b.Best(!o.isBuy));
            && Leads(b', !o.isBuy)
            && seen != [] && seen[0] == x
            && Seen(b'.live, stp, o, b'.Best(!o.isBuy)) == seen[1..]
  {
    hide Filter, DistinctRefs, AllPositive, Visible, Prices, Leads, Reduce, Lookup, BestIn;
    var side := !o.isBuy;
    var x := NextResting(b, stp, o).value;
    NextRestingIsLive(b, capacity, stp, o);
    var p := x.price;
    var live' := Filter(b.live, NotRef(x.ref));
    var q, q' := Queue(b.live, p, side), Queue(live', p, side);
    FillKeepsLead(b, capacity, x);
    RemovalSameBeyond(b.live, x);
    FilterDistinct(b.live, AtLevel(p, side));
    FirstEligibleDropped(q, stp, o);
    SameVisibleBeyond(b.live, live', p, side);
    var next := NextVisible(b.live, p, side);
    NextVisibleIsWorse(b.live, p, side);
    SeenFrame(b.live, live', stp, o, p, next);
    if q' == [] {
      FilterNone(q', EligibleTest(stp, o));
    }
  }

  lemma NextVisibleIsWorse(live: seq<Resting>, p: Price4, isBuy: bool)
    ensures NextVisible(live, p, isBuy).Some? ==> Better(p, NextVisible(live, p, isBuy).value, isBuy)
  {
  }

  /**
   Whatever its rescans miss: the fills of a walk are the greedy prefix of the
   orders it sees. That it misses nothing makes these the reachable ones.
   */
  lemma {:induction false} MatchTakesSeen(b: BookState, capacity: nat, stp: bool, o: IncomingOrder, remaining: Shares)
    requires WellFormed(b, capacity) && Leads(b, !o.isBuy)
    ensures Match(b, capacity, stp, o, remaining).1 == Consume(Seen(b.live, stp, o, b.Best(!o.isBuy)), remaining)
    decreases remaining
  {
    hide NextResting, Lookup, WellFormed, Reduce, Crosses, Leads, Seen;
    if remaining > 0 {
      if NextResting(b, stp, o).None? {
        StoppedMeansNothingSeen(b, capacity, stp, o);
      } else {
        NextRestingIsLive(b, capacity, stp, o);
        var x := NextResting(b, stp, o).value;
        var quantity := Min(remaining, x.shares);
        ReduceWellFormed(b, capacity, x.ref, quantity);
        SeenFrontFilled(b, capacity, stp, o);
        if quantity == x.shares {
          MatchTakesSeen(Reduce(b, x.ref, quantity).0, capacity, stp, o, remaining - quantity);
        }
      }
    }
  }

  lemma StoppedMeansNothingSeen(b: BookState, capacity: nat, stp: bool, o: IncomingOrder)
    requires WellFormed(b, capacity) && NextResting(b, stp, o).None?
    ensures Seen(b.live, stp, o, b.Best(!o.isBuy)) == []
  {
    hide Filter, DistinctRefs, AllPositive;
    if b.Best(!o.isBuy).Some? {
      QueueEmptyIffNoPrice(b.live, b.Best(!o.isBuy).value, !o.isBuy);
    }
  }

  // ----- what the dry run measures -----

  /** Every order that could trade with `o` at `from` or a worse price, in whatever order. */
  function MatchTest(stp: bool, o: IncomingOrder, from: Option<Price4>): Test {
    Matchable(!o.isBuy, if o.kind == Market then None else Some(o.price),
              if StpActive(stp, o) then Some(o.trader) else None, from)
  }

  function LiquidityFrom(live: seq<Resting>, stp: bool, o: IncomingOrder, from: Option<Price4>): nat {
    Sum(Filter(live, MatchTest(stp, o, from)))
  }

  /** All shares that could trade with `o`: crossing, and not barred by self-trade prevention. */
  function Liquidity(live: seq<Resting>, stp: bool, o: IncomingOrder): nat {
    LiquidityFrom(live, stp, o, None)
  }

  /** Nothing beyond the last level. */
  function Rest(live: seq<Resting>, stp: bool, o: IncomingOrder, level: Option<Price4>): nat {
    if level.None? then 0 else LiquidityFrom(live, stp, o, level)
  }

  lemma LevelIsMatchTest(live: seq<Resting>, stp: bool, o: IncomingOrder, p: Price4)
    requires Crosses(o, p)
    ensures Filter(Filter(live, MatchTest(stp, o, Some(p))), AtLevel(p, !o.isBuy))
            == EligibleOf(Queue(live, p, !o.isBuy), stp, o)
  {
    FilterCommutes(live, MatchTest(stp, o, Some(p)), AtLevel(p, !o.isBuy));
    FilterMembers(live, AtLevel(p, !o.isBuy));
    FilterSame(Queue(live, p, !o.isBuy), MatchTest(stp, o, Some(p)), EligibleTest(stp, o));
  }

  /** A crossing level and any worse one: their shares are parts of what there is from the first on. */
  lemma LevelAndRest(live: seq<Resting>, stp: bool, o: IncomingOrder, p: Price4, next: Option<Price4>)
    requires Crosses(o, p) && (next.Some? ==> Better(p, next.value, !o.isBuy))
    ensures LevelLiquidity(live, stp, o, p) + Rest(live, stp, o, next) <= LiquidityFrom(live, stp, o, Some(p))
    ensures next == NextPrice(live, p, !o.isBuy) ==>
              LevelLiquidity(live, stp, o, p) + Rest(live, stp, o, next) == LiquidityFrom(live, stp, o, Some(p))
  {
    hide Filter, Sum;
    var isBuy := !o.isBuy;
    var all := Filter(live, MatchTest(stp, o, Some(p)));
    FilterMembers(live, MatchTest(stp, o, Some(p)));
    LevelIsMatchTest(live, stp, o, p);
    forall x | x in all && x.price != p
      ensures x.price in WorseThan(Prices(live, isBuy), p, isBuy)
    {
    }
    if next.None? {
      SumOfFilter(all, AtLevel(p, isBuy));
      if next == NextPrice(live, p, isBuy) {
        FilterAll(all, AtLevel(p, isBuy));
      }
    } else {
      FilterStronger(live, MatchTest(stp, o, Some(p)), MatchTest(stp, o, next));
      SumParts(all, AtLevel(p, isBuy), MatchTest(stp, o, next));
    }
  }

  /** A level that does not cross ends everything that could trade. */
  lemma NothingBeyondLimit(live: seq<Resting>, stp: bool, o: IncomingOrder, p: Price4)
    requires !Crosses(o, p)
    ensures Rest(live, stp, o, Some(p)) == 0
  {
    FilterNone(live, MatchTest(stp, o, Some(p)));
  }

  /** From the best price on there is all of the liquidity. */
  lemma RestFromBest(live: seq<Resting>, stp: bool, o: IncomingOrder)
    ensures Rest(live, stp, o, BestIn(Prices(live, !o.isBuy), !o.isBuy)) == Liquidity(live, stp, o)
  {
    hide Filter, Sum;
    var best := BestIn(Prices(live, !o.isBuy), !o.isBuy);
    forall x | x in live && x.isBuy == !o.isBuy
      ensures best.Some? && !Better(x.price, best.value, !o.isBuy)
    {
      assert x.price in Prices(live, !o.isBuy);
    }
    if best.None? {
      FilterNone(live, MatchTest(stp, o, None));
      EmptySum();
    } else {
      FilterSame(live, MatchTest(stp, o, None), MatchTest(stp, o, best));
    }
  }

  lemma LiquidityWithinSide(live: seq<Resting>, stp: bool, o: IncomingOrder, from: Option<Price4>)
    ensures LiquidityFrom(live, stp, o, from) <= SideTotal(live, !o.isBuy)
  {
    FilterStronger(live, OnSide(!o.isBuy), MatchTest(stp, o, from));
    SumOfFilter(Filter(live, OnSide(!o.isBuy)), MatchTest(stp, o, from));
  }

  /** Whatever wraps and whatever hides, the dry run never claims more than there is. */
  lemma {:induction false} DryRunNeverOverstates(live: seq<Resting>, stp: bool, o: IncomingOrder,
                                                 level: Option<Price4>, total: Shares)
    ensures Available(live, stp, o, level, total) <= total + Rest(live, stp, o, level)
    decreases if level.None? then 0 else 1 + Beyond(level.value, !o.isBuy)
  {
    hide LiquidityFrom, LevelLiquidity, NextVisible, Crosses, Wrap32;
    if level.Some? && total < o.quantity && Crosses(o, level.value) {
      var next := NextVisible(live, level.value, !o.isBuy);
      NextVisibleIsWorse(live, level.value, !o.isBuy);
      LevelAndRest(live, stp, o, level.value, next);
      WrapNotAbove(total + LevelLiquidity(live, stp, o, level.value));
      DryRunNeverOverstates(live, stp, o, next, Wrap32(total + LevelLiquidity(live, stp, o, level.value)));
    }
  }

  /** The dry run ends with the level that gives it enough: what is further back can no longer wrap the sum away. */
  lemma DryRunStopsInTime(live: seq<Resting>, stp: bool, o: IncomingOrder, p: Price4, total: Shares)
    requires total < o.quantity <= total + LevelLiquidity(live, stp, o, p) < TWO_TO_32
    requires o.kind == Market || if o.isBuy then p <= o.price else p >= o.price
    ensures Available(live, stp, o, Some(p), total) == total + LevelLiquidity(live, stp, o, p)
  {
    hide LevelLiquidity, NextVisible, Wrap32;
    var now := total + LevelLiquidity(live, stp, o, p);
    WrapNotAbove(now);
    assert Available(live, stp, o, NextVisible(live, p, !o.isBuy), now) == now;
  }

  /**
   While the walked side stays below 2^32 shares, the dry run reaches the wanted quantity
   exactly when it is there.
   */
  lemma {:induction false} DryRunMeasures(live: seq<Resting>, stp: bool, o: IncomingOrder, level: Option<Price4>,
                                          total: Shares)
    requires AllPositive(live) && NoHiddenLevel(live, !o.isBuy)
    requires total + Rest(live, stp, o, level) < TWO_TO_32
    ensures Available(live, stp, o, level, total) >= o.quantity <==> total + Rest(live, stp, o, level) >= o.quantity
    decreases if level.None? then 0 else 1 + Beyond(level.value, !o.isBuy)
  {
    hide LiquidityFrom, LevelLiquidity, AllPositive, NoHiddenLevel, Visible, Prices, BestIn, Crosses, Wrap32;
    if level.Some? {
      if !Crosses(o, level.value) {
        NothingBeyondLimit(live, stp, o, level.value);
      } else if total < o.quantity {
        var p := level.value;
        NoHiddenLevelMeansAllVisible(live, !o.isBuy);
        NextVisibleIsWorse(live, p, !o.isBuy);
        WrapNotAbove(total + LevelLiquidity(live, stp, o, p));
        LevelAndRest(live, stp, o, p, NextPrice(live, p, !o.isBuy));
        DryRunMeasures(live, stp, o, NextPrice(live, p, !o.isBuy), total + LevelLiquidity(live, stp, o, p));
      }
    }
  }

  /** The dry run of a whole order, from the best level. */
  lemma DryRunExact(b: BookState, capacity: nat, stp: bool, o: IncomingOrder)
    requires WellFormed(b, capacity) && BestIsTrue(b) && SideTotal(b.live, !o.isBuy) < TWO_TO_32
    ensures Available(b.live, stp, o, b.Best(!o.isBuy), 0) >= o.quantity <==> Liquidity(b.live, stp, o) >= o.quantity
  {
    hide LiquidityFrom, Available, SideTotal, Rest;
    SmallSideHidesNothing(b.live, !o.isBuy);
    RestFromBest(b.live, stp, o);
    LiquidityWithinSide(b.live, stp, o, None);
    DryRunMeasures(b.live, stp, o, b.Best(!o.isBuy), 0);
  }

  // ----- the reachable orders and the liquidity -----

  /** A crossing order of the walked side that self-trade prevention bars. */
  predicate Barred(stp: bool, o: IncomingOrder, y: Resting) {
    y.isBuy == !o.isBuy && Crosses(o, y.price) && !Eligible(stp, o, y)
  }

  /** No order that could trade stands at a strictly worse price than a barred crossing order. */
  ghost predicate NoneShadowed(live: seq<Resting>, stp: bool, o: IncomingOrder) {
    forall x, y :: x in live && y in live && MatchTest(stp, o, None).Holds(x) && Barred(stp, o, y)
      ==> !Better(y.price, x.price, !o.isBuy)
  }

  ghost predicate NoneShadowedFrom(live: seq<Resting>, stp: bool, o: IncomingOrder, level: Option<Price4>) {
    level.Some? ==>
      forall x, y :: x in live && y in live && MatchTest(stp, o, level).Holds(x) && BarredFrom(stp, o, y, level.value)
                     ==> !Better(y.price, x.price, !o.isBuy)
  }

  predicate BarredFrom(stp: bool, o: IncomingOrder, y: Resting, p: Price4) {
    Barred(stp, o, y) && !Better(y.price, p, !o.isBuy)
  }

  lemma BarredInQueue(live: seq<Resting>, stp: bool, o: IncomingOrder, p: Price4)
    requires Crosses(o, p)
    ensures EligibleOf(Queue(live, p, !o.isBuy), stp, o) == Queue(live, p, !o.isBuy)
            <==> forall y :: y in live && Barred(stp, o, y) ==> y.price != p
  {
    var q := Queue(live, p, !o.isBuy);
    FilterMembers(live, AtLevel(p, !o.isBuy));
    FilterKeepsAll(q, EligibleTest(stp, o));
    if EligibleOf(q, stp, o) == q {
      forall y | y in live && Barred(stp, o, y)
        ensures y.price != p
      {
        assert y.price == p ==> y in q;
      }
    }
  }

  lemma NothingLeft(live: seq<Resting>, t: Test)
    requires AllPositive(live)
    ensures Sum(Filter(live, t)) == 0 <==> forall x :: x in live ==> !t.Holds(x)
  {
    var f := Filter(live, t);
    FilterMembers(live, t);
    if f != [] {
      SumPositive(f);
      assert f[0] in f;
    }
  }

  /** An order that is at `p` or worse, but not at `p`, is at the next price or worse. */
  lemma BeyondIsNext(live: seq<Resting>, x: Resting, p: Price4)
    requires x in live && Better(p, x.price, x.isBuy)
    ensures NextPrice(live, p, x.isBuy).Some? && !Better(x.price, NextPrice(live, p, x.isBuy).value, x.isBuy)
    ensures Better(p, NextPrice(live, p, x.isBuy).value, x.isBuy)
  {
    assert x.price in WorseThan(Prices(live, x.isBuy), p, x.isBuy);
  }

  /** A level without barred orders shadows nothing. */
  lemma ShadowPassesOpenLevel(live: seq<Resting>, stp: bool, o: IncomingOrder, p: Price4)
    requires forall y :: y in live && Barred(stp, o, y) ==> y.price != p
    ensures NoneShadowedFrom(live, stp, o, Some(p)) <==> NoneShadowedFrom(live, stp, o, NextPrice(live, p, !o.isBuy))
  {
    hide Prices, BestIn, WorseThan;
    var next := NextPrice(live, p, !o.isBuy);
    NextPriceFrame(live, live, p, !o.isBuy);
    if NoneShadowedFrom(live, stp, o, next) {
      forall x, y | x in live && y in live && MatchTest(stp, o, Some(p)).Holds(x) && BarredFrom(stp, o, y, p)
        ensures !Better(y.price, x.price, !o.isBuy)
      {
        BeyondIsNext(live, y, p);
        if x.price != p {
          BeyondIsNext(live, x, p);
          assert MatchTest(stp, o, next).Holds(x) && BarredFrom(stp, o, y, next.value);
        }
      }
    } else {
      var x, y :| x in live && y in live && MatchTest(stp, o, next).Holds(x) && BarredFrom(stp, o, y, next.value)
        && Better(y.price, x.price, !o.isBuy);
      assert MatchTest(stp, o, Some(p)).Holds(x) && BarredFrom(stp, o, y, p);
    }
  }

  /** A level with a barred order shadows everything that could trade beyond it. */
  lemma ShadowOfBarredLevel(live: seq<Resting>, stp: bool, o: IncomingOrder, p: Price4)
    requires AllPositive(live)
    requires exists y :: y in live && Barred(stp, o, y) && y.price == p
    ensures NoneShadowedFrom(live, stp, o, Some(p)) <==> Rest(live, stp, o, NextPrice(live, p, !o.isBuy)) == 0
  {
    hide Prices, BestIn, WorseThan, Filter, Sum, AllPositive;
    var next := NextPrice(live, p, !o.isBuy);
    NextPriceFrame(live, live, p, !o.isBuy);
    var b :| b in live && Barred(stp, o, b) && b.price == p;
    assert BarredFrom(stp, o, b, p);
    NothingLeft(live, MatchTest(stp, o, next));
    if NoneShadowedFrom(live, stp, o, Some(p)) {
      forall x | x in live && next.Some?
        ensures !MatchTest(stp, o, next).Holds(x)
      {
        assert MatchTest(stp, o, next).Holds(x) ==> MatchTest(stp, o, Some(p)).Holds(x);
      }
    } else {
      var x, y :| x in live && y in live && MatchTest(stp, o, Some(p)).Holds(x) && BarredFrom(stp, o, y, p)
        && Better(y.price, x.price, !o.isBuy);
      BeyondIsNext(live, x, p);
      assert MatchTest(stp, o, next).Holds(x);
    }
  }

  /** The reachable orders hold at most the liquidity; all of it exactly when nothing is shadowed. */
  lemma {:induction false} ReachableTotal(live: seq<Resting>, stp: bool, o: IncomingOrder, level: Option<Price4>)
    requires AllPositive(live)
    ensures Sum(Reachable(live, stp, o, level)) <= Rest(live, stp, o, level)
    ensures Sum(Reachable(live, stp, o, level)) == Rest(live, stp, o, level) <==> NoneShadowedFrom(live, stp, o, level)
    decreases if level.None? then 0 else 1 + Beyond(level.value, !o.isBuy)
  {
    hide Filter, Sum, AllPositive, LiquidityFrom, Queue, NextPrice, NoneShadowedFrom;
    if level.None? {
      EmptySum();
      EmptyShadow(live, stp, o);
    } else if !Crosses(o, level.value) {
      NothingBeyondLimit(live, stp, o, level.value);
      EmptySum();
      LimitShadow(live, stp, o, level.value);
    } else {
      var p := level.value;
      var q := Queue(live, p, !o.isBuy);
      var e := EligibleOf(q, stp, o);
      var next := NextPrice(live, p, !o.isBuy);
      NextPriceFrame(live, live, p, !o.isBuy);
      LevelAndRest(live, stp, o, p, next);
      BarredInQueue(live, stp, o, p);
      EmptySum();
      if e == q {
        SumConcat(e, Reachable(live, stp, o, next));
        ReachableTotal(live, stp, o, next);
        ShadowPassesOpenLevel(live, stp, o, p);
      } else {
        assert e + [] == e;
        ShadowOfBarredLevel(live, stp, o, p);
      }
    }
  }

  lemma EmptySum()
    ensures Sum([]) == 0
  {
  }

  lemma EmptyShadow(live: seq<Resting>, stp: bool, o: IncomingOrder)
    ensures NoneShadowedFrom(live, stp, o, None)
  {
  }

  lemma LimitShadow(live: seq<Resting>, stp: bool, o: IncomingOrder, p: Price4)
    requires !Crosses(o, p)
    ensures NoneShadowedFrom(live, stp, o, Some(p))
  {
  }

  /** The same for a whole order. */
  lemma ReachableExact(live: seq<Resting>, stp: bool, o: IncomingOrder)
    requires AllPositive(live)
    ensures Sum(ReachableNow(live, stp, o)) <= Liquidity(live, stp, o)
    ensures Sum(ReachableNow(live, stp, o)) == Liquidity(live, stp, o) <==> NoneShadowed(live, stp, o)
    ensures !StpActive(stp, o) ==> Sum(ReachableNow(live, stp, o)) == Liquidity(live, stp, o)
  {
    hide Filter, Sum, AllPositive, LiquidityFrom, Reachable;
    var isBuy := !o.isBuy;
    var best := BestIn(Prices(live, isBuy), isBuy);
    RestFromBest(live, stp, o);
    ReachableTotal(live, stp, o, best);
    forall x | x in live && x.isBuy == isBuy
      ensures best.Some? && !Better(x.price, best.value, isBuy)
    {
      assert x.price in Prices(live, isBuy);
    }
    assert forall x :: x in live && MatchTest(stp, o, None).Holds(x) ==> MatchTest(stp, o, best).Holds(x);
    assert forall y :: y in live && Barred(stp, o, y) ==> BarredFrom(stp, o, y, best.value);
  }
}
