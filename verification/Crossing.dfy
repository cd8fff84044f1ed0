/**
 When submissions leave the book crossed. A rest crosses exactly when the walk
 stopped short of orders it crosses: barred by self-trade prevention, or on a
 level that a rescan did not see. The condition is read off the book before the
 submission, for every self-trade setting, whatever has wrapped or hides.
 */
module Crossing {
  import opened BookSpec
  import opened EngineLaws
  import opened EngineRuns
  import opened EngineSpec
  import opened ItchTypes
  import opened Options
  import opened Orders
  import opened Words

  /** Every bid is below every ask. */
  ghost predicate Uncrossed(live: seq<Resting>) {
    forall x, y :: x in live && y in live && x.isBuy && !y.isBuy ==> x.price < y.price
  }

  lemma ComesFromUncrossed(live: seq<Resting>, live': seq<Resting>)
    requires Uncrossed(live) && ComesFrom(live, live')
    ensures Uncrossed(live')
  {
    forall x', y' | x' in live' && y' in live' && x'.isBuy && !y'.isBuy
      ensures x'.price < y'.price
    {
      var x :| x in live && SameTerms(x, x');
      var y :| y in live && SameTerms(y, y');
    }
  }

  // ----- what a walk takes from the orders it crosses -----

  /** All shares that the order crosses, barred or not. */
  function CrossingTotal(live: seq<Resting>, o: IncomingOrder): nat {
    Liquidity(live, false, o)
  }

  /** Reducing an order that passes a test takes just its shares from those that pass. */
  lemma TakenFromTest(live: seq<Resting>, x: Resting, n: Shares, t: Test)
    requires DistinctRefs(live) && x in live && t.Holds(x)
    ensures Sum(Filter(Filter(live, NotRef(x.ref)), t)) == Sum(Filter(live, t)) - x.shares
    ensures Sum(Filter(WithShares(live, x.ref, n), t)) == Sum(Filter(live, t)) - x.shares + n
  {
    hide Filter, Sum, WithShares, DistinctRefs, Test.Holds;
    FilterCommutes(live, NotRef(x.ref), t);
    FilterWithShares(live, x.ref, n, t);
    FilterDistinct(live, t);
    FilterMembers(live, t);
    SumRemove(Filter(live, t), x);
    SumWithShares(Filter(live, t), x, n);
  }

  lemma ExecutionTakesLiquidity(b: BookState, capacity: nat, stp: bool, counting: bool, o: IncomingOrder,
                                quantity: Shares)
    requires WellFormed(b, capacity) && NextResting(b, stp, o).Some? && (counting ==> stp)
    requires 0 < quantity <= NextResting(b, stp, o).value.shares
    ensures var b' := Reduce(b, NextResting(b, stp, o).value.ref, quantity).0;
            Liquidity(b'.live, counting, o) == Liquidity(b.live, counting, o) - quantity
  {
    hide Filter, Sum, WithShares, NextResting, DistinctRefs, AllPositive;
    NextRestingIsLive(b, capacity, stp, o);
    NextMayTrade(b, capacity, stp, o);
    var x := NextResting(b, stp, o).value;
    BarredExactly(counting, o, x);
    TakenFromTest(b.live, x, x.shares - quantity, MatchTest(counting, o, None));
  }

  /** A walk takes exactly its fills from the shares that may trade, and from those with the barred ones. */
  lemma {:induction false} WalkTakesLiquidity(b: BookState, capacity: nat, stp: bool, counting: bool,
                                              o: IncomingOrder, remaining: Shares)
    requires WellFormed(b, capacity) && (counting ==> stp)
    ensures var (b', fills, left) := Match(b, capacity, stp, o, remaining);
            Liquidity(b'.live, counting, o) == Liquidity(b.live, counting, o) - (remaining - left)
    decreases remaining
  {
    hide WellFormed, NextResting, Lookup, Reduce, Liquidity;
    if remaining > 0 && NextResting(b, stp, o).Some? {
      NextRestingIsLive(b, capacity, stp, o);
      var x := NextResting(b, stp, o).value;
      var quantity := Min(remaining, x.shares);
      ReduceWellFormed(b, capacity, x.ref, quantity);
      ExecutionTakesLiquidity(b, capacity, stp, counting, o, quantity);
      WalkTakesLiquidity(Reduce(b, x.ref, quantity).0, capacity, stp, counting, o, remaining - quantity);
    }
  }

  /** A walk takes exactly its fills from the shares that the order crosses. */
  lemma WalkTakesCrossing(b: BookState, capacity: nat, stp: bool, o: IncomingOrder, remaining: Shares)
    requires WellFormed(b, capacity)
    ensures var (b', fills, left) := Match(b, capacity, stp, o, remaining);
            CrossingTotal(b'.live, o) == CrossingTotal(b.live, o) - (remaining - left)
  {
    hide WellFormed, Liquidity, Match;
    WalkTakesLiquidity(b, capacity, stp, false, o, remaining);
  }

  // ----- what a submission leaves behind -----

  /** No order that may trade stands at a strictly worse price than one that prevention bars. */
  ghost predicate NoneBehindBarred(live: seq<Resting>, stp: bool, o: IncomingOrder) {
    forall x, y :: x in live && y in live && MayTrade(stp, o, x) && MayTrade(false, o, y) && !MayTrade(stp, o, y)
                   ==> if o.isBuy then x.price <= y.price else x.price >= y.price
  }

  lemma NoneShadowedExactly(live: seq<Resting>, stp: bool, o: IncomingOrder)
    ensures NoneShadowed(live, stp, o) <==> NoneBehindBarred(live, stp, o)
  {
    forall y: Resting
      ensures MatchTest(stp, o, None).Holds(y) <==> MayTrade(stp, o, y)
      ensures Barred(stp, o, y) <==> MayTrade(false, o, y) && !MayTrade(stp, o, y)
    {
      BarredExactly(stp, o, y);
    }
    if !NoneShadowed(live, stp, o) {
      var x, y :| x in live && y in live && MatchTest(stp, o, None).Holds(x) && Barred(stp, o, y)
        && Better(y.price, x.price, !o.isBuy);
      assert MayTrade(stp, o, x) && MayTrade(false, o, y) && !MayTrade(stp, o, y);
    }
  }

  /** Nothing that may trade is left exactly when no such shares are. */
  lemma NoneLeftExactly(live: seq<Resting>, stp: bool, o: IncomingOrder)
    requires AllPositive(live)
    ensures Liquidity(live, stp, o) == 0 <==> forall y :: y in live ==> !MayTrade(stp, o, y)
  {
    hide AllPositive;
    NothingLeft(live, MatchTest(stp, o, None));
    forall y | y in live
      ensures MatchTest(stp, o, None).Holds(y) <==> MayTrade(stp, o, y)
    {
      BarredExactly(stp, o, y);
    }
  }

  /**
   When a submission that its dry run lets through ends short of its quantity, no
   order that may trade with it is left if and only if none stood behind a barred
   one; from true best prices, if the walk misses no level while shares are still wanted.
   */
  lemma NothingLeftBehindExactly(b: BookState, capacity: nat, stp: bool, o: IncomingOrder)
    requires WellFormed(b, capacity) && BestIsTrue(b) && !WalkStrays(b, capacity, stp, o, o.quantity)
    requires o.kind == FOK ==> Available(b.live, stp, o, b.Best(!o.isBuy), 0) >= o.quantity
    ensures var (b', events) := Submit(b, capacity, stp, o);
            FillQuantity(events) < o.quantity ==>
              ((forall y :: y in b'.live ==> !MayTrade(stp, o, y)) <==> NoneBehindBarred(b.live, stp, o))
  {
    hide Match, Available, WellFormed, NextResting, BestIsTrue, WalkStrays, Liquidity, NoneBehindBarred, NoneShadowed,
      AfterFills, ReachableNow, Sum;
    if o.quantity > 0 {
      SubmitWalks(b, capacity, stp, o);
      var (b', fills, left) := Match(b, capacity, stp, o, o.quantity);
      MatchIsGreedy(b, capacity, stp, o, o.quantity);
      ConsumeTakesMin(ReachableNow(b.live, stp, o), o.quantity);
      PositiveShares(b, capacity);
      PositiveShares(b', capacity);
      ReachableExact(b.live, stp, o);
      WalkTakesLiquidity(b, capacity, stp, stp, o, o.quantity);
      NoneShadowedExactly(b.live, stp, o);
      NoneLeftExactly(b'.live, stp, o);
    }
  }

  // ----- the book after a walk that filled all it saw -----

  ghost predicate OnlyTaken(live: seq<Resting>, taken: seq<Resting>, live': seq<Resting>) {
    && |live'| + |taken| == |live|
    && (forall y :: y in live' <==> y in live && y !in taken)
  }

  lemma FrontTaken(live: seq<Resting>, x: Resting, rest: seq<Resting>, live': seq<Resting>)
    requires DistinctRefs(live) && x in live && OnlyTaken(Filter(live, NotRef(x.ref)), rest, live')
    ensures OnlyTaken(live, [x] + rest, live')
  {
    hide Filter, DistinctRefs;
    PricesAfterRemoval(live, x);
  }

  /** A walk that wants more than it sees takes exactly the orders it sees out of the book. */
  lemma {:induction false} SeenAllTaken(b: BookState, capacity: nat, stp: bool, o: IncomingOrder, remaining: Shares)
    requires WellFormed(b, capacity) && Leads(b, !o.isBuy)
    requires Sum(SeenNow(b, stp, o)) <= remaining
    ensures OnlyTaken(b.live, SeenNow(b, stp, o), Match(b, capacity, stp, o, remaining).0.live)
    decreases remaining
  {
    hide NextResting, Lookup, Reduce, Leads, Seen, Sum, OnlyTaken, Filter, DistinctRefs, AllPositive;
    var seen := SeenNow(b, stp, o);
    if NextResting(b, stp, o).None? {
      StoppedMeansNothingSeen(b, capacity, stp, o);
      NothingTaken(b.live);
    } else {
      NextRestingIsLive(b, capacity, stp, o);
      var x := NextResting(b, stp, o).value;
      SeenFrontFilled(b, capacity, stp, o);
      FrontSum(seen);
      ReduceWellFormed(b, capacity, x.ref, x.shares);
      var b1 := Reduce(b, x.ref, x.shares).0;
      SeenAllTaken(b1, capacity, stp, o, remaining - x.shares);
      FullyFilledIsRemoved(b, x);
      FrontTaken(b.live, x, seen[1..], Match(b1, capacity, stp, o, remaining - x.shares).0.live);
      assert [x] + seen[1..] == seen;
    }
  }

  lemma NothingTaken(live: seq<Resting>)
    ensures OnlyTaken(live, [], live)
  {
  }

  // ----- exactly when a submission crosses the book -----

  /** There is room, and no live order keeps the reference, once the orders seen are gone. */
  ghost predicate RestFits(b: BookState, capacity: nat, stp: bool, o: IncomingOrder) {
    var seen := SeenNow(b, stp, o);
    && |b.live| - |seen| < capacity
    && (forall x :: x in b.live && x.ref == o.ref ==> x in seen)
  }

  /** A limit order wants more than its walk sees, more than that crosses it, and its rest fits the book. */
  ghost predicate RestCrosses(b: BookState, capacity: nat, stp: bool, o: IncomingOrder) {
    var seen := Sum(SeenNow(b, stp, o));
    && o.kind == Limit
    && seen < o.quantity
    && seen < CrossingTotal(b.live, o)
    && RestFits(b, capacity, stp, o)
  }

  /** Of an order with a rest: the rest is accepted exactly when it fits. */
  lemma AcceptedIfFits(b: BookState, capacity: nat, stp: bool, o: IncomingOrder)
    requires WellFormed(b, capacity) && Leads(b, !o.isBuy) && Sum(SeenNow(b, stp, o)) <= o.quantity
    ensures RestAccepted(b, capacity, stp, o) <==> RestFits(b, capacity, stp, o)
  {
    hide WellFormed, Leads, Seen, Sum, Match;
    SeenAllTaken(b, capacity, stp, o, o.quantity);
    var live' := Match(b, capacity, stp, o, o.quantity).0.live;
    if Lookup(live', o.ref).Some? {
      assert Lookup(live', o.ref).value in b.live;
    }
  }

  /** A rest in an uncrossed book crosses it exactly when shares are left that it crosses. */
  lemma RestInBook(live: seq<Resting>, o: IncomingOrder, left: Shares)
    requires AllPositive(live) && Uncrossed(live) && o.kind == Limit
    ensures Uncrossed(live + [Resting(o.ref, o.price, left, o.isBuy, o.trader)]) <==> CrossingTotal(live, o) == 0
  {
    hide Filter, Sum, AllPositive;
    var rest := Resting(o.ref, o.price, left, o.isBuy, o.trader);
    NothingLeft(live, MatchTest(false, o, None));
    var live' := live + [rest];
    assert forall y :: y in live' <==> y in live || y == rest;
    if Uncrossed(live') {
      forall y | y in live
        ensures !MatchTest(false, o, None).Holds(y)
      {
        assert y in live' && rest in live';
      }
    }
  }

  /** For every self-trade setting, on every book whose cached best leads. */
  lemma SubmitUncrossedExactly(b: BookState, capacity: nat, stp: bool, o: IncomingOrder)
    requires WellFormed(b, capacity) && Leads(b, !o.isBuy) && Uncrossed(b.live)
    ensures Uncrossed(Submit(b, capacity, stp, o).0.live) <==> !RestCrosses(b, capacity, stp, o)
  {
    hide Match, Available, WellFormed, Leads, Seen, Sum, Uncrossed, CrossingTotal, RestFits, Consume, Refused,
      AllPositive;
    if o.quantity == 0 || Refused(b, stp, o) {
      RefusedUntouched(b, capacity, stp, o);
      RefusedIsFok(b, stp, o);
    } else {
      SubmitWalks(b, capacity, stp, o);
      MatchTakesSeen(b, capacity, stp, o, o.quantity);
      ConsumeTakesMin(SeenNow(b, stp, o), o.quantity);
      MatchSplits(b, capacity, stp, o, o.quantity);
      MatchMembers(b, capacity, stp, o, o.quantity);
      var (b', fills, left) := Match(b, capacity, stp, o, o.quantity);
      ComesFromUncrossed(b.live, b'.live);
      if o.kind == Limit && left > 0 {
        AcceptedIfFits(b, capacity, stp, o);
        WalkTakesCrossing(b, capacity, stp, o, o.quantity);
        PositiveShares(b', capacity);
        RestInBook(b'.live, o, left);
      }
    }
  }

  lemma RefusedIsFok(b: BookState, stp: bool, o: IncomingOrder)
    ensures Refused(b, stp, o) ==> o.kind == FOK
  {
  }

  // ----- the cached bests lead throughout -----

  ghost predicate BothLead(b: BookState) {
    Leads(b, true) && Leads(b, false)
  }

  /** A side none of whose queues or cached best changed still leads. */
  lemma LeadKept(b: BookState, b': BookState, isBuy: bool)
    requires Leads(b, isBuy) && b'.Best(isBuy) == b.Best(isBuy)
    requires forall r :: r in Visible(b'.live, isBuy) ==> r in Visible(b.live, isBuy) || Some(r) == b.Best(isBuy)
    ensures Leads(b', isBuy)
  {
    hide Visible;
  }

  lemma OtherVisible(live: seq<Resting>, live': seq<Resting>, r: Price4, isBuy: bool)
    requires Queue(live', r, isBuy) == Queue(live, r, isBuy)
    ensures r in Visible(live', isBuy) <==> r in Visible(live, isBuy)
  {
    hide Filter, Sum, Prices;
    QueueEmptyIffNoPrice(live, r, isBuy);
    QueueEmptyIffNoPrice(live', r, isBuy);
  }

  /** An execution at the cached best keeps both sides' leads. */
  lemma ExecutionKeepsLeads(b: BookState, capacity: nat, x: Resting, quantity: Shares)
    requires WellFormed(b, capacity) && BothLead(b)
    requires x in b.live && Lookup(b.live, x.ref) == Some(x) && b.Best(x.isBuy) == Some(x.price)
    requires 0 < quantity <= x.shares
    ensures BothLead(Reduce(b, x.ref, quantity).0)
  {
    hide Filter, WithShares, Leads, Visible, Queue, DistinctRefs, AllPositive;
    var b' := Reduce(b, x.ref, quantity).0;
    var n := x.shares - quantity;
    var side, other := x.isBuy, !x.isBuy;
    forall r | r in Visible(b'.live, other)
      ensures r in Visible(b.live, other)
    {
      OtherQueueKept(b.live, x, n, r, other);
      OtherVisible(b.live, b'.live, r, other);
    }
    LeadKept(b, b', other);
    if n == 0 {
      FillKeepsLead(b, capacity, x);
    } else {
      forall r | r in Visible(b'.live, side) && r != x.price
        ensures r in Visible(b.live, side)
      {
        OtherQueueKept(b.live, x, n, r, side);
        OtherVisible(b.live, b'.live, r, side);
      }
      LeadKept(b, b', side);
    }
  }

  lemma {:induction false} WalkKeepsLeads(b: BookState, capacity: nat, stp: bool, o: IncomingOrder, remaining: Shares)
    requires WellFormed(b, capacity) && BothLead(b)
    ensures BothLead(Match(b, capacity, stp, o, remaining).0)
    decreases remaining
  {
    hide WellFormed, NextResting, Lookup, Reduce, BothLead;
    if remaining > 0 && NextResting(b, stp, o).Some? {
      NextRestingIsLive(b, capacity, stp, o);
      var x := NextResting(b, stp, o).value;
      var quantity := Min(remaining, x.shares);
      ReduceWellFormed(b, capacity, x.ref, quantity);
      ExecutionKeepsLeads(b, capacity, x, quantity);
      WalkKeepsLeads(Reduce(b, x.ref, quantity).0, capacity, stp, o, remaining - quantity);
    }
  }

  lemma AddKeepsLeads(b: BookState, capacity: nat, y: Resting)
    requires BothLead(b)
    ensures BothLead(Add(b, capacity, y).0)
  {
    hide Filter, Visible, Queue, Leads;
    var (b', ok) := Add(b, capacity, y);
    if ok {
      forall r, isBuy | r != y.price || isBuy != y.isBuy
        ensures r in Visible(b'.live, isBuy) <==> r in Visible(b.live, isBuy)
      {
        AppendedElsewhere(b.live, y, r, isBuy);
        OtherVisible(b.live, b'.live, r, isBuy);
      }
      LeadKept(b, b', !y.isBuy);
      LeadImproved(b, b', y);
    }
  }

  lemma AppendedElsewhere(live: seq<Resting>, y: Resting, r: Price4, isBuy: bool)
    requires r != y.price || isBuy != y.isBuy
    ensures Queue(live + [y], r, isBuy) == Queue(live, r, isBuy)
  {
    FilterAppend(live, y, AtLevel(r, isBuy));
  }

  lemma LeadImproved(b: BookState, b': BookState, y: Resting)
    requires Leads(b, y.isBuy) && b'.Best(y.isBuy) == ImproveBest(b.Best(y.isBuy), y.price, y.isBuy)
    requires forall r :: r != y.price ==> (r in Visible(b'.live, y.isBuy) <==> r in Visible(b.live, y.isBuy))
    ensures Leads(b', y.isBuy)
  {
    hide Visible;
  }

  /** Every submission keeps both leads. */
  lemma SubmitKeepsLeads(b: BookState, capacity: nat, stp: bool, o: IncomingOrder)
    requires WellFormed(b, capacity) && BothLead(b)
    ensures BothLead(Submit(b, capacity, stp, o).0)
  {
    hide Match, Available, WellFormed, BothLead, Refused, Add;
    if o.quantity == 0 || Refused(b, stp, o) {
      RefusedUntouched(b, capacity, stp, o);
    } else {
      SubmitWalks(b, capacity, stp, o);
      WalkKeepsLeads(b, capacity, stp, o, o.quantity);
      var (b', fills, left) := Match(b, capacity, stp, o, o.quantity);
      AddKeepsLeads(b', capacity, Resting(o.ref, o.price, left, o.isBuy, o.trader));
    }
  }

  lemma TrueBestsLead(b: BookState)
    requires BestIsTrue(b)
    ensures BothLead(b)
  {
    TrueBestLeads(b, true);
    TrueBestLeads(b, false);
  }

  // ----- whole runs -----

  /** The book is uncrossed before, between and after all submissions. */
  ghost predicate UncrossedThroughout(b: BookState, capacity: nat, stp: bool, orders: seq<IncomingOrder>)
    requires WellFormed(b, capacity)
    decreases |orders|
  {
    && Uncrossed(b.live)
    && (orders != [] ==>
          (CallConservesExactly(b, capacity, stp, orders[0]);
           UncrossedThroughout(Submit(b, capacity, stp, orders[0]).0, capacity, stp, orders[1..])))
  }

  /** No submission of the run leaves a rest that crosses. */
  ghost predicate NoRestCrosses(b: BookState, capacity: nat, stp: bool, orders: seq<IncomingOrder>)
    requires WellFormed(b, capacity)
    decreases |orders|
  {
    orders != [] ==>
      && !RestCrosses(b, capacity, stp, orders[0])
      && (CallConservesExactly(b, capacity, stp, orders[0]);
          NoRestCrosses(Submit(b, capacity, stp, orders[0]).0, capacity, stp, orders[1..]))
  }

  /** Over every run the cached bests lead at the end, and so, runs having prefixes, throughout. */
  lemma {:induction false} RunKeepsLeads(b: BookState, capacity: nat, stp: bool, orders: seq<IncomingOrder>)
    requires WellFormed(b, capacity) && BothLead(b)
    ensures var b' := SubmitAll(b, capacity, stp, orders).0;
            WellFormed(b', capacity) && BothLead(b')
    decreases |orders|
  {
    hide Submit, WellFormed, BothLead;
    if orders != [] {
      CallConservesExactly(b, capacity, stp, orders[0]);
      SubmitKeepsLeads(b, capacity, stp, orders[0]);
      RunKeepsLeads(Submit(b, capacity, stp, orders[0]).0, capacity, stp, orders[1..]);
    }
  }

  /** A run keeps the book uncrossed throughout if and only if no submission's rest crosses. */
  lemma {:induction false} RunUncrossedExactly(b: BookState, capacity: nat, stp: bool, orders: seq<IncomingOrder>)
    requires WellFormed(b, capacity) && BothLead(b) && Uncrossed(b.live)
    ensures UncrossedThroughout(b, capacity, stp, orders) <==> NoRestCrosses(b, capacity, stp, orders)
    decreases |orders|
  {
    hide Submit, WellFormed, Leads, Uncrossed, RestCrosses;
    if orders != [] {
      var b' := Submit(b, capacity, stp, orders[0]).0;
      CallConservesExactly(b, capacity, stp, orders[0]);
      SubmitUncrossedExactly(b, capacity, stp, orders[0]);
      SubmitKeepsLeads(b, capacity, stp, orders[0]);
      if Uncrossed(b'.live) {
        RunUncrossedExactly(b', capacity, stp, orders[1..]);
      }
    }
  }

  /** An uncrossed end shows in the cached bests: whenever both sides have one, the bid is below the ask. */
  lemma {:induction false} UncrossedAtEnd(b: BookState, capacity: nat, stp: bool, orders: seq<IncomingOrder>)
    requires WellFormed(b, capacity) && UncrossedThroughout(b, capacity, stp, orders)
    ensures var b' := SubmitAll(b, capacity, stp, orders).0;
            && Uncrossed(b'.live)
            && (b'.bestBid.Some? && b'.bestAsk.Some? ==> b'.bestBid.value < b'.bestAsk.value)
    decreases |orders|
  {
    hide Submit, WellFormed, Uncrossed;
    if orders == [] {
      UncrossedBests(b, capacity);
    } else {
      CallConservesExactly(b, capacity, stp, orders[0]);
      UncrossedAtEnd(Submit(b, capacity, stp, orders[0]).0, capacity, stp, orders[1..]);
    }
  }

  lemma UncrossedBests(b: BookState, capacity: nat)
    requires WellFormed(b, capacity) && Uncrossed(b.live)
    ensures b.bestBid.Some? && b.bestAsk.Some? ==> b.bestBid.value < b.bestAsk.value
  {
    if b.bestBid.Some? && b.bestAsk.Some? {
      assert b.Best(true).value in Prices(b.live, true) && b.Best(false).value in Prices(b.live, false);
    }
  }

  /** Every run in which no submission's rest crosses ends with the best bid strictly below the best ask. */
  lemma RunStaysUncrossed(b: BookState, capacity: nat, stp: bool, orders: seq<IncomingOrder>)
    requires WellFormed(b, capacity) && BothLead(b) && Uncrossed(b.live)
    requires NoRestCrosses(b, capacity, stp, orders)
    ensures var b' := SubmitAll(b, capacity, stp, orders).0;
            && WellFormed(b', capacity) && BothLead(b') && Uncrossed(b'.live)
            && (b'.bestBid.Some? && b'.bestAsk.Some? ==> b'.bestBid.value < b'.bestAsk.value)
  {
    hide SubmitAll, WellFormed, BothLead, Uncrossed, NoRestCrosses, UncrossedThroughout;
    RunUncrossedExactly(b, capacity, stp, orders);
    RunKeepsLeads(b, capacity, stp, orders);
    UncrossedAtEnd(b, capacity, stp, orders);
  }

  // ----- without self-trade prevention -----

  /** Without self-trade prevention only a walk that strays leaves a rest that crosses. */
  lemma OnlyStraysCross(b: BookState, capacity: nat, stp: bool, o: IncomingOrder)
    requires WellFormed(b, capacity) && BestIsTrue(b) && !StpActive(stp, o)
    requires !WalkStrays(b, capacity, stp, o, o.quantity)
    ensures !RestCrosses(b, capacity, stp, o)
  {
    hide Match, WellFormed, BestIsTrue, Leads, Seen, Sum, Filter, ReachableNow, Consume, RestFits, Filled,
      AllPositive, WalkStrays;
    TrueBestLeads(b, !o.isBuy);
    MatchIsGreedy(b, capacity, stp, o, o.quantity);
    MatchTakesSeen(b, capacity, stp, o, o.quantity);
    ConsumeTakesMin(SeenNow(b, stp, o), o.quantity);
    ConsumeTakesMin(ReachableNow(b.live, stp, o), o.quantity);
    PositiveShares(b, capacity);
    ReachableExact(b.live, stp, o);
    InactiveStpBarsNone(b.live, stp, o);
  }

  lemma InactiveStpBarsNone(live: seq<Resting>, stp: bool, o: IncomingOrder)
    requires !StpActive(stp, o)
    ensures Liquidity(live, stp, o) == CrossingTotal(live, o)
  {
  }

  ghost predicate NoneWithStp(stp: bool, orders: seq<IncomingOrder>) {
    forall o :: o in orders ==> !StpActive(stp, o)
  }

  /** A submission whose walk, if it walks, misses nothing keeps the cached bests true. */
  lemma SubmitKeepsBest(b: BookState, capacity: nat, stp: bool, o: IncomingOrder)
    requires WellFormed(b, capacity) && BestIsTrue(b) && !SubmitMisses(b, capacity, stp, o)
    ensures BestIsTrue(Submit(b, capacity, stp, o).0)
  {
    hide Match, Available, WellFormed, BestIsTrue, WalkMisses, Refused;
    if o.quantity == 0 || Refused(b, stp, o) {
      RefusedUntouched(b, capacity, stp, o);
    } else {
      SubmitWalks(b, capacity, stp, o);
      WalkKeepsBestExactly(b, capacity, stp, o, o.quantity);
      var (b', fills, left) := Match(b, capacity, stp, o, o.quantity);
      AddKeepsBest(b', capacity, Resting(o.ref, o.price, left, o.isBuy, o.trader));
    }
  }

  /** Both sides stay below 2^32 shares before every submission of the run. */
  ghost predicate SmallThroughout(b: BookState, capacity: nat, stp: bool, orders: seq<IncomingOrder>)
    requires WellFormed(b, capacity)
    decreases |orders|
  {
    orders != [] ==>
      && (forall isBuy :: SideTotal(b.live, isBuy) < TWO_TO_32)
      && (CallConservesExactly(b, capacity, stp, orders[0]);
          SmallThroughout(Submit(b, capacity, stp, orders[0]).0, capacity, stp, orders[1..]))
  }

  /** Below 2^32 shares a side and without self-trade prevention no rest crosses, and the cached bests stay true. */
  lemma {:induction false} SmallRunNeverCrosses(b: BookState, capacity: nat, stp: bool, orders: seq<IncomingOrder>)
    requires WellFormed(b, capacity) && BestIsTrue(b) && NoneWithStp(stp, orders)
    requires SmallThroughout(b, capacity, stp, orders)
    ensures NoRestCrosses(b, capacity, stp, orders)
    ensures BestIsTrue(SubmitAll(b, capacity, stp, orders).0)
    decreases |orders|
  {
    hide Submit, WellFormed, BestIsTrue, SideTotal, WalkMisses, WalkStrays, Refused, RestCrosses;
    if orders != [] {
      var o := orders[0];
      SmallWalkNeverMisses(b, capacity, stp, o, o.quantity);
      if WalkStrays(b, capacity, stp, o, o.quantity) {
        StrayingIsMissing(b, capacity, stp, o, o.quantity);
      }
      OnlyStraysCross(b, capacity, stp, o);
      SubmitKeepsBest(b, capacity, stp, o);
      CallConservesExactly(b, capacity, stp, o);
      SmallRunNeverCrosses(Submit(b, capacity, stp, o).0, capacity, stp, orders[1..]);
    }
  }

  /** It is enough that all shares ever submitted stay below 2^32. */
  lemma {:induction false} SmallRun(b: BookState, capacity: nat, stp: bool, orders: seq<IncomingOrder>)
    requires WellFormed(b, capacity)
    requires Sum(b.live) + TotalQuantity(orders) < TWO_TO_32
    ensures SmallThroughout(b, capacity, stp, orders)
    decreases |orders|
  {
    hide Submit, WellFormed, Sum, Filter;
    if orders != [] {
      forall isBuy
        ensures SideTotal(b.live, isBuy) < TWO_TO_32
      {
        SumOfFilter(b.live, OnSide(isBuy));
      }
      CallConservesExactly(b, capacity, stp, orders[0]);
      SmallRun(Submit(b, capacity, stp, orders[0]).0, capacity, stp, orders[1..]);
    }
  }

  // ----- the run a new exchange starts with -----

  lemma EmptyStart(capacity: nat)
    ensures WellFormed(EMPTY_BOOK, capacity) && BestIsTrue(EMPTY_BOOK) && BothLead(EMPTY_BOOK)
    ensures Uncrossed(EMPTY_BOOK.live) && Sum(EMPTY_BOOK.live) == 0
  {
    EmptyBookWellFormed(capacity);
    TrueBestsLead(EMPTY_BOOK);
  }

  /**
   From an empty book, for every self-trade setting: the cached bests lead, shares
   are conserved exactly if every announced rest is accepted, and the book is
   uncrossed throughout exactly if no rest crosses.
   */
  lemma RunFromEmpty(capacity: nat, stp: bool, orders: seq<IncomingOrder>)
    ensures WellFormed(EMPTY_BOOK, capacity)
    ensures var (b, events) := SubmitAll(EMPTY_BOOK, capacity, stp, orders);
            && WellFormed(b, capacity) && BothLead(b)
            && (TotalQuantity(orders) == Sum(b.live) + 2 * FillQuantity(events) + KillQuantity(events)
                <==> RestsAccepted(EMPTY_BOOK, capacity, stp, orders))
            && (UncrossedThroughout(EMPTY_BOOK, capacity, stp, orders)
                <==> NoRestCrosses(EMPTY_BOOK, capacity, stp, orders))
  {
    hide SubmitAll, WellFormed, BothLead, Uncrossed, NoRestCrosses, UncrossedThroughout, RestsAccepted, Sum;
    EmptyStart(capacity);
    RunConservesExactly(EMPTY_BOOK, capacity, stp, orders);
    RunKeepsLeads(EMPTY_BOOK, capacity, stp, orders);
    RunUncrossedExactly(EMPTY_BOOK, capacity, stp, orders);
  }

  /** The ordinary case: fresh references, room, fewer than 2^32 shares in all, no self-trade prevention. */
  lemma SmallRunFromEmpty(capacity: nat, stp: bool, orders: seq<IncomingOrder>)
    requires FreshRefs([], orders) && |orders| <= capacity && TotalQuantity(orders) < TWO_TO_32
             && NoneWithStp(stp, orders)
    ensures WellFormed(EMPTY_BOOK, capacity)
    ensures var (b, events) := SubmitAll(EMPTY_BOOK, capacity, stp, orders);
            && TotalQuantity(orders) == Sum(b.live) + 2 * FillQuantity(events) + KillQuantity(events)
            && Uncrossed(b.live) && BestIsTrue(b)
            && (b.bestBid.Some? && b.bestAsk.Some? ==> b.bestBid.value < b.bestAsk.value)
  {
    hide SubmitAll, WellFormed, BothLead, BestIsTrue, Uncrossed, NoRestCrosses, SmallThroughout, Sum, FreshRefs,
      NoneWithStp;
    EmptyStart(capacity);
    RunConserves(EMPTY_BOOK, capacity, stp, orders);
    SmallRun(EMPTY_BOOK, capacity, stp, orders);
    SmallRunNeverCrosses(EMPTY_BOOK, capacity, stp, orders);
    RunStaysUncrossed(EMPTY_BOOK, capacity, stp, orders);
  }

  // ----- where self-trade prevention crosses the book -----

  /** One ask of trader 7, and a bid of the same trader at its price. */
  const OWN_ASK: Resting := Resting(1, 100, 5, false, 7)

  const OWN_BOOK: BookState := BookState([OWN_ASK], None, Some(100))

  const OWN_BID: IncomingOrder := IncomingOrder(9, 100, 5, true, Limit, 7)

  lemma OwnBookShape()
    ensures WellFormed(OWN_BOOK, 10) && BestIsTrue(OWN_BOOK) && Uncrossed(OWN_BOOK.live)
    ensures SeenNow(OWN_BOOK, true, OWN_BID) == []
    ensures CrossingTotal(OWN_BOOK.live, OWN_BID) == 5
  {
    hide Filter, Sum, Visible;
    OneOrder(OWN_ASK, AtLevel(100, false));
    OneOrder(OWN_ASK, NotTrader(7));
    OneOrder(OWN_ASK, MatchTest(false, OWN_BID, None));
    assert OWN_ASK in OWN_BOOK.live;
    assert Prices(OWN_BOOK.live, false) == {100} && Prices(OWN_BOOK.live, true) == {};
    BestIsUnique({100}, false, Some(100));
    forall isBuy
      ensures OWN_BOOK.Best(isBuy) == BestIn(Prices(OWN_BOOK.live, isBuy), isBuy)
    {
    }
  }

  lemma OneOrder(a: Resting, t: Test)
    ensures Filter([a], t) == Keep(a, t)
    ensures Sum(Filter([a], t)) == if t.Holds(a) then a.shares else 0
  {
    FilterAppend([], a, t);
    assert [] + [a] == [a];
    SumKeep([], a, t);
    assert [] + Keep(a, t) == Keep(a, t);
  }

  /** With self-trade prevention a bid can rest against an ask it crosses: the barred order of its own trader. */
  lemma OwnOrderExample()
    ensures WellFormed(OWN_BOOK, 10) && BestIsTrue(OWN_BOOK) && Uncrossed(OWN_BOOK.live)
    ensures RestCrosses(OWN_BOOK, 10, true, OWN_BID)
    ensures !Uncrossed(Submit(OWN_BOOK, 10, true, OWN_BID).0.live)
  {
    hide Filter, Seen, Submit, Uncrossed, WellFormed, BestIsTrue, CrossingTotal;
    OwnBookShape();
    EmptySum();
    TrueBestLeads(OWN_BOOK, false);
    SubmitUncrossedExactly(OWN_BOOK, 10, true, OWN_BID);
  }

  // ----- where a walk misses a level and crosses the book -----

  /** Five shares at 100, and behind them two orders whose counter wraps to zero. */
  const WRAPPED_ASKS: seq<Resting> := [Resting(1, 100, 5, false, 0), Resting(2, 101, 0x8000_0000, false, 0),
                                       Resting(3, 101, 0x8000_0000, false, 0)]

  const WRAPPED_BOOK: BookState := BookState(WRAPPED_ASKS, None, Some(100))

  const CROSSING_BID: IncomingOrder := IncomingOrder(9, 101, 10, true, Limit, 0)

  lemma WrappedBookShape()
    ensures WellFormed(WRAPPED_BOOK, 10) && BestIsTrue(WRAPPED_BOOK) && Uncrossed(WRAPPED_ASKS)
    ensures Queue(WRAPPED_ASKS, 100, false) == [WRAPPED_ASKS[0]]
  {
    hide Filter, Sum;
    var a, b, c := WRAPPED_ASKS[0], WRAPPED_ASKS[1], WRAPPED_ASKS[2];
    assert WRAPPED_ASKS == [a, b, c];
    ThreeOrders(a, b, c, AtLevel(100, false));
    assert a in WRAPPED_ASKS && c in WRAPPED_ASKS;
    assert Prices(WRAPPED_ASKS, false) == {100, 101} && Prices(WRAPPED_ASKS, true) == {};
    BestIsUnique({100, 101}, false, Some(100));
    forall isBuy
      ensures WRAPPED_BOOK.Best(isBuy) == BestIn(Prices(WRAPPED_ASKS, isBuy), isBuy)
    {
    }
  }

  /** After the first ask is gone, a rescan sees no ask at all. */
  lemma WrappedRemainder()
    ensures Filter(WRAPPED_ASKS, NotRef(1)) == [WRAPPED_ASKS[1], WRAPPED_ASKS[2]]
    ensures RemoveFully(WRAPPED_BOOK, WRAPPED_ASKS[0]) == BookState([WRAPPED_ASKS[1], WRAPPED_ASKS[2]], None, None)
  {
    hide Filter, Sum;
    var a, b, c := WRAPPED_ASKS[0], WRAPPED_ASKS[1], WRAPPED_ASKS[2];
    assert WRAPPED_ASKS == [a, b, c];
    ThreeOrders(a, b, c, NotRef(1));
    TwoOrders(b, c, AtLevel(100, false));
    TwoOrders(b, c, AtLevel(101, false));
    var rest := [b, c];
    assert Prices(rest, false) <= {101};
    assert SharesAt(rest, 101, false) == 0;
    assert Visible(rest, false) == {};
    BestIsUnique({}, false, None);
  }

  /**
   Beyond 2^32 shares one submission can cross the book: the walk fills the ask
   at 100, the rescan misses the asks at 101, and the rest of a bid at 101 rests
   against them.
   */
  lemma CrossedExample()
    ensures WellFormed(WRAPPED_BOOK, 10) && BestIsTrue(WRAPPED_BOOK) && Uncrossed(WRAPPED_ASKS)
    ensures SubmitMisses(WRAPPED_BOOK, 10, false, CROSSING_BID)
    ensures Submit(WRAPPED_BOOK, 10, false, CROSSING_BID).0
         == BookState([WRAPPED_ASKS[1], WRAPPED_ASKS[2], Resting(9, 101, 5, true, 0)], Some(101), None)
    ensures !Uncrossed(Submit(WRAPPED_BOOK, 10, false, CROSSING_BID).0.live)
  {
    hide Filter, Sum, WellFormed, Uncrossed, RemoveFully, BestIn, Match, WalkMisses;
    WrappedBookShape();
    WrappedRemainder();
    CrossedWalk();
    var bid := Resting(9, 101, 5, true, 0);
    var after := [WRAPPED_ASKS[1], WRAPPED_ASKS[2]];
    SubmitWalks(WRAPPED_BOOK, 10, false, CROSSING_BID);
    assert after + [bid] == [WRAPPED_ASKS[1], WRAPPED_ASKS[2], bid];
    assert Lookup(after, 9) == None;
    CrossedPair(after + [bid], bid, WRAPPED_ASKS[1]);
  }

  lemma CrossedWalk()
    requires WellFormed(WRAPPED_BOOK, 10)
    ensures Match(WRAPPED_BOOK, 10, false, CROSSING_BID, 10)
         == (BookState([WRAPPED_ASKS[1], WRAPPED_ASKS[2]], None, None), [Fill(1, 100, 5)], 5)
    ensures WalkMisses(WRAPPED_BOOK, 10, false, CROSSING_BID, 10)
    ensures WalkMisses(WRAPPED_BOOK, 10, false, CROSSING_BID.(quantity := 5), 5)
  {
    hide Filter, Sum, RemoveFully, WellFormed, BestIn, Lookup, Visible;
    var a := WRAPPED_ASKS[0];
    var b1 := BookState([WRAPPED_ASKS[1], WRAPPED_ASKS[2]], None, None);
    WrappedBookShape();
    WrappedRemainder();
    FilterAll([a], Anyone);
    NextRestingIsLive(WRAPPED_BOOK, 10, false, CROSSING_BID);
    ReduceWellFormed(WRAPPED_BOOK, 10, 1, 5);
    assert Reduce(WRAPPED_BOOK, 1, 5).0 == b1;
    assert Match(b1, 10, false, CROSSING_BID, 5) == (b1, [], 5);
    assert [Fill(1, 100, 5)] + [] == [Fill(1, 100, 5)];
    ReductionExact(WRAPPED_BOOK, 10, 1, 5);
    assert WRAPPED_ASKS[1] in b1.live;
    assert WRAPPED_ASKS[1].price in Prices(b1.live, false);
  }

  lemma CrossedPair(live: seq<Resting>, x: Resting, y: Resting)
    requires x in live && y in live && x.isBuy && !y.isBuy && x.price >= y.price
    ensures !Uncrossed(live)
  {
  }

  /** The same book and a bid for just the first ask: its walk misses the level, but leaves no rest to cross. */
  lemma HarmlessMissExample()
    ensures WellFormed(WRAPPED_BOOK, 10) && BestIsTrue(WRAPPED_BOOK) && Uncrossed(WRAPPED_ASKS)
    ensures SubmitMisses(WRAPPED_BOOK, 10, false, CROSSING_BID.(quantity := 5))
    ensures Uncrossed(Submit(WRAPPED_BOOK, 10, false, CROSSING_BID.(quantity := 5)).0.live)
  {
    hide WalkMisses, Match, Filter, Sum, Seen, Submit, Uncrossed, WellFormed, BestIsTrue, CrossingTotal, RestFits,
      NextVisible;
    WrappedBookShape();
    TrueBestLeads(WRAPPED_BOOK, false);
    CrossedWalk();
    SeenOfFive();
    SubmitUncrossedExactly(WRAPPED_BOOK, 10, false, CROSSING_BID.(quantity := 5));
  }

  lemma SeenOfFive()
    ensures Sum(SeenNow(WRAPPED_BOOK, false, CROSSING_BID.(quantity := 5))) >= 5
  {
    hide Filter, NextVisible;
    WrappedBookShape();
    var a := WRAPPED_ASKS[0];
    FilterAll([a], Anyone);
    var seen := SeenNow(WRAPPED_BOOK, false, CROSSING_BID.(quantity := 5));
    FrontSum(seen);
  }

  // ----- where the lead is lost -----

  /** Two orders whose counter wraps to zero, at a better price than the cached best. */
  const HIDDEN_ASKS: seq<Resting> := [Resting(1, 101, 0x8000_0000, false, 0), Resting(2, 101, 0x8000_0000, false, 0),
                                      Resting(3, 102, 5, false, 0)]

  const HIDDEN_BOOK: BookState := BookState(HIDDEN_ASKS, None, Some(102))

  lemma HiddenLeads()
    ensures Leads(HIDDEN_BOOK, false)
  {
    hide Filter, Sum;
    var a, b, c := HIDDEN_ASKS[0], HIDDEN_ASKS[1], HIDDEN_ASKS[2];
    assert HIDDEN_ASKS == [a, b, c];
    ThreeOrders(a, b, c, AtLevel(101, false));
    assert SharesAt(HIDDEN_ASKS, 101, false) == 0;
    assert Prices(HIDDEN_ASKS, false) <= {101, 102};
  }

  /** A cancellation made directly on a level that hides uncovers it, and the cached best no longer leads. */
  lemma LeadLostExample()
    ensures Leads(HIDDEN_BOOK, false) && !Leads(Reduce(HIDDEN_BOOK, 1, 1).0, false)
  {
    hide Filter, Sum;
    HiddenLeads();
    var a, b, c := HIDDEN_ASKS[0], HIDDEN_ASKS[1], HIDDEN_ASKS[2];
    var a' := a.(shares := 0x7FFF_FFFF);
    assert HIDDEN_ASKS == [a, b, c];
    assert a in HIDDEN_ASKS && Lookup(HIDDEN_ASKS, 1) == Some(a);
    var live' := WithShares(HIDDEN_ASKS, 1, 0x7FFF_FFFF);
    FirstReduced(a, b, c, 0x7FFF_FFFF);
    assert live' == [a', b, c];
    ThreeOrders(a', b, c, AtLevel(101, false));
    assert a' in live' && 101 in Prices(live', false);
    assert SharesAt(live', 101, false) == 0xFFFF_FFFF;
    assert 101 in Visible(live', false) && Better(101, 102, false);
  }

  lemma FirstReduced(a: Resting, b: Resting, c: Resting, n: Shares)
    requires a.ref != b.ref && a.ref != c.ref
    ensures WithShares([a, b, c], a.ref, n) == [a.(shares := n), b, c]
  {
    var s := [a, b, c];
    forall i: nat | i < 3
      ensures WithShares(s, a.ref, n)[i] == [a.(shares := n), b, c][i]
    {
      WithSharesAt(s, a.ref, n, i);
    }
  }
}
