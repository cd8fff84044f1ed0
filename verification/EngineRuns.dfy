/**
 What submissions keep: every share is accounted for, Fill-Or-Kill is atomic
 exactly when self-trade prevention does not hide liquidity from the walk, and
 runs of submissions conserve shares exactly when no announced rest is refused.
 */
module EngineRuns {
  import opened BookSpec
  import opened EngineSpec
  import opened ItchTypes
  import opened Options
  import opened Orders
  import opened Words

  function FillQuantity(events: seq<Event>): nat {
    if events == [] then 0
    else (if events[0].FillEvent? then events[0].quantity else 0) + FillQuantity(events[1..])
  }

  function RestQuantity(events: seq<Event>): nat {
    if events == [] then 0
    else (if events[0].RestEvent? then events[0].quantity else 0) + RestQuantity(events[1..])
  }

  function KillQuantity(events: seq<Event>): nat {
    if events == [] then 0
    else (if events[0].KillEvent? then events[0].quantity else 0) + KillQuantity(events[1..])
  }

  // ----- one walk -----

  /** The walk fills what it no longer has left, out of the book, and adds nothing to the book. */
  lemma {:induction false} MatchSplits(b: BookState, capacity: nat, stp: bool, o: IncomingOrder, remaining: Shares)
    requires WellFormed(b, capacity)
    ensures var (b', fills, left) := Match(b, capacity, stp, o, remaining);
            && Filled(fills) == remaining - left
            && Sum(b'.live) == Sum(b.live) - Filled(fills)
            && |b'.live| <= |b.live|
            && (left > 0 ==> NextResting(b', stp, o).None?)
            && (forall isBuy :: SideTotal(b'.live, isBuy) <= SideTotal(b.live, isBuy))
    decreases remaining
  {
    hide Filter, Sum, SideTotal, WellFormed, NextResting, Lookup;
    if remaining > 0 && NextResting(b, stp, o).Some? {
      NextRestingIsLive(b, capacity, stp, o);
      var x := NextResting(b, stp, o).value;
      var quantity := Min(remaining, x.shares);
      var b1 := Reduce(b, x.ref, quantity).0;
      ReduceWellFormed(b, capacity, x.ref, quantity);
      ReduceTotals(b, capacity, x.ref, quantity);
      ReduceMembers(b, capacity, x.ref, quantity);
      MatchSplits(b1, capacity, stp, o, remaining - quantity);
      var (b', fills, left) := Match(b1, capacity, stp, o, remaining - quantity);
      var all := [Fill(x.ref, x.price, quantity)] + fills;
      assert all[1..] == fills;
      assert Match(b, capacity, stp, o, remaining) == (b', all, left);
    }
  }

  /** Every order of `live'` is an order of `live`, perhaps with fewer shares, never with more. */
  ghost predicate ComesFrom(live: seq<Resting>, live': seq<Resting>) {
    forall y :: y in live' ==> exists x :: x in live && SameTerms(x, y)
  }

  ghost predicate SameTerms(x: Resting, y: Resting) {
    y == x.(shares := y.shares) && y.shares <= x.shares
  }

  lemma ReduceMembers(b: BookState, capacity: nat, ref: OrderRef, delta: Shares)
    requires WellFormed(b, capacity)
    ensures ComesFrom(b.live, Reduce(b, ref, delta).0.live)
    ensures |Reduce(b, ref, delta).0.live| <= |b.live|
  {
    hide Filter, WithShares;
    var b' := Reduce(b, ref, delta).0;
    FilterMembers(b.live, NotRef(ref));
    forall y | y in b'.live
      ensures exists x :: x in b.live && SameTerms(x, y)
    {
      if y in b.live {
        assert SameTerms(y, y);
      } else {
        var left := Lookup(b.live, ref).value.shares - delta;
        WithSharesMembers(b.live, ref, left);
        var x :| x in b.live && y == Left(x, ref, left);
        SameRefSameOrder(b.live, x, Lookup(b.live, ref).value);
        assert SameTerms(x, y);
      }
    }
  }

  lemma ComesFromTransitive(a: seq<Resting>, b: seq<Resting>, c: seq<Resting>)
    requires ComesFrom(a, b) && ComesFrom(b, c)
    ensures ComesFrom(a, c)
  {
    forall z | z in c
      ensures exists x :: x in a && SameTerms(x, z)
    {
      var y :| y in b && SameTerms(y, z);
      var x :| x in a && SameTerms(x, y);
      assert SameTerms(x, z);
    }
  }

  lemma {:induction false} MatchMembers(b: BookState, capacity: nat, stp: bool, o: IncomingOrder, remaining: Shares)
    requires WellFormed(b, capacity)
    ensures ComesFrom(b.live, Match(b, capacity, stp, o, remaining).0.live)
    decreases remaining
  {
    hide Filter, WellFormed, NextResting, Lookup, ComesFrom, Reduce;
    if remaining > 0 && NextResting(b, stp, o).Some? {
      NextRestingIsLive(b, capacity, stp, o);
      var x := NextResting(b, stp, o).value;
      var quantity := Min(remaining, x.shares);
      var b1 := Reduce(b, x.ref, quantity).0;
      ReduceWellFormed(b, capacity, x.ref, quantity);
      ReduceMembers(b, capacity, x.ref, quantity);
      MatchMembers(b1, capacity, stp, o, remaining - quantity);
      ComesFromTransitive(b.live, b1.live, Match(b1, capacity, stp, o, remaining - quantity).0.live);
    } else {
      ComesFromItself(b.live);
    }
  }

  lemma ComesFromItself(live: seq<Resting>)
    ensures ComesFrom(live, live)
  {
    assert forall x :: x in live ==> SameTerms(x, x);
  }

  // ----- one submission -----

  lemma {:induction false} EventSums(o: IncomingOrder, fills: seq<Fill>, tail: seq<Event>)
    ensures FillQuantity(Events(o, fills) + tail) == Filled(fills) + FillQuantity(tail)
    ensures RestQuantity(Events(o, fills) + tail) == RestQuantity(tail)
    ensures KillQuantity(Events(o, fills) + tail) == KillQuantity(tail)
  {
    if fills == [] {
      assert Events(o, fills) + tail == tail;
    } else {
      EventSums(o, fills[1..], tail);
      assert (Events(o, fills) + tail)[1..] == Events(o, fills[1..]) + tail;
    }
  }

  lemma OneEvent(e: Event)
    ensures FillQuantity([e]) == if e.FillEvent? then e.quantity else 0
    ensures RestQuantity([e]) == if e.RestEvent? then e.quantity else 0
    ensures KillQuantity([e]) == if e.KillEvent? then e.quantity else 0
    ensures FillQuantity([]) == RestQuantity([]) == KillQuantity([]) == 0
  {
    assert [e][1..] == [];
  }

  /** The dry run of a Fill-Or-Kill order says no. */
  ghost predicate Refused(b: BookState, stp: bool, o: IncomingOrder) {
    o.kind == FOK && Available(b.live, stp, o, b.Best(!o.isBuy), 0) < o.quantity
  }

  /** The event that ends a submission, if any. */
  function LastEvent(o: IncomingOrder, left: Shares): seq<Event> {
    if left == 0 then []
    else if o.kind == Limit then [RestEvent(o.ref, o.price, left, o.isBuy)]
    else [KillEvent(o.ref, left)]
  }

  /** A submission that walks: its events are the fills followed by at most one rest or kill. */
  lemma SubmitWalks(b: BookState, capacity: nat, stp: bool, o: IncomingOrder)
    requires WellFormed(b, capacity) && o.quantity > 0 && !Refused(b, stp, o)
    ensures var (b', fills, left) := Match(b, capacity, stp, o, o.quantity);
            var (b'', events) := Submit(b, capacity, stp, o);
            && events == Events(o, fills) + LastEvent(o, left)
            && b''
               == (if left > 0 && o.kind == Limit
                   then Add(b', capacity, Resting(o.ref, o.price, left, o.isBuy, o.trader)).0 else b')
            && FillQuantity(events) == Filled(fills) == o.quantity - left
            && RestQuantity(events) == (if o.kind == Limit then left else 0)
            && KillQuantity(events) == (if o.kind == Limit then 0 else left)
  {
    hide Match, Add, Available, NextResting;
    var (b', fills, left) := Match(b, capacity, stp, o, o.quantity);
    MatchSplits(b, capacity, stp, o, o.quantity);
    EventSums(o, fills, LastEvent(o, left));
    OneEvent(RestEvent(o.ref, o.price, left, o.isBuy));
    OneEvent(KillEvent(o.ref, left));
    assert Events(o, fills) + [] == Events(o, fills);
  }

  lemma RefusedUntouched(b: BookState, capacity: nat, stp: bool, o: IncomingOrder)
    requires WellFormed(b, capacity) && (o.quantity == 0 || Refused(b, stp, o))
    ensures Submit(b, capacity, stp, o).0 == b
  {
  }

  /** The incoming quantity is accounted for exactly once, on any well-formed book and for any setting. */
  lemma CallAccountsForQuantity(b: BookState, capacity: nat, stp: bool, o: IncomingOrder)
    requires WellFormed(b, capacity)
    ensures var events := Submit(b, capacity, stp, o).1;
            && FillQuantity(events) + RestQuantity(events) + KillQuantity(events) == o.quantity
            && (RestQuantity(events) == 0 || KillQuantity(events) == 0)
            && (o.kind != Limit ==> RestQuantity(events) == 0)
  {
    hide Match, Add, Available, NextResting, WellFormed;
    OneEvent(KillEvent(o.ref, o.quantity));
    if o.quantity > 0 && !Refused(b, stp, o) {
      SubmitWalks(b, capacity, stp, o);
    }
  }

  /** The remainder that `on_rest` announces really is in the book: its reference was free and there was room. */
  ghost predicate RestAccepted(b: BookState, capacity: nat, stp: bool, o: IncomingOrder)
    requires WellFormed(b, capacity)
  {
    var b' := Match(b, capacity, stp, o, o.quantity).0;
    Lookup(b'.live, o.ref).None? && |b'.live| < capacity
  }

  /**
   A submission conserves shares - what is submitted equals the growth of the book
   plus twice the fills plus what is killed - exactly when its rest, if any, was
   accepted by the book.
   */
  lemma CallConservesExactly(b: BookState, capacity: nat, stp: bool, o: IncomingOrder)
    requires WellFormed(b, capacity)
    ensures var (b', events) := Submit(b, capacity, stp, o);
            var accounted := Sum(b'.live) - Sum(b.live) + 2 * FillQuantity(events) + KillQuantity(events);
            && WellFormed(b', capacity)
            && accounted <= o.quantity
            && (accounted == o.quantity <==> RestQuantity(events) == 0 || RestAccepted(b, capacity, stp, o))
            && Sum(b'.live) <= Sum(b.live) + o.quantity
  {
    hide Match, Available, NextResting, WellFormed, Sum;
    OneEvent(KillEvent(o.ref, o.quantity));
    if o.quantity > 0 && !Refused(b, stp, o) {
      SubmitWalks(b, capacity, stp, o);
      MatchSplits(b, capacity, stp, o, o.quantity);
      var (b', fills, left) := Match(b, capacity, stp, o, o.quantity);
      var x := Resting(o.ref, o.price, left, o.isBuy, o.trader);
      SumAppend(b'.live, x);
      AddWellFormed(b', capacity, x);
    }
  }

  // ----- Fill-Or-Kill -----

  /** The order walks, and its walk misses a best level. */
  ghost predicate SubmitMisses(b: BookState, capacity: nat, stp: bool, o: IncomingOrder)
    requires WellFormed(b, capacity)
  {
    o.quantity > 0 && !Refused(b, stp, o) && WalkMisses(b, capacity, stp, o, o.quantity)
  }

  /** The orders a submission's walk would meet. */
  ghost function SeenNow(b: BookState, stp: bool, o: IncomingOrder): seq<Resting> {
    Seen(b.live, stp, o, b.Best(!o.isBuy))
  }

  /**
   What a Fill-Or-Kill order does, by the dry run and the orders seen: refused
   untouched when the dry run falls short, filled completely when the orders seen
   suffice, and otherwise filled in part and killed.
   */
  lemma FokExact(b: BookState, capacity: nat, stp: bool, o: IncomingOrder)
    requires WellFormed(b, capacity) && Leads(b, !o.isBuy)
    requires o.kind == FOK && o.quantity > 0
    ensures var (b', events) := Submit(b, capacity, stp, o);
            var fills := Consume(SeenNow(b, stp, o), o.quantity);
            && (Refused(b, stp, o) ==> b' == b && events == [KillEvent(o.ref, o.quantity)])
            && (!Refused(b, stp, o) ==>
                  && b' == AfterFills(b, fills)
                  && Filled(fills) == Min(o.quantity, Sum(SeenNow(b, stp, o)))
                  && events == Events(o, fills) + LastEvent(o, o.quantity - Filled(fills)))
  {
    hide Match, Add, Available, NextResting, WellFormed, Sum, Seen, Leads, AfterFills, Consume;
    if !Refused(b, stp, o) {
      SubmitWalks(b, capacity, stp, o);
      MatchTakesSeen(b, capacity, stp, o, o.quantity);
      MatchExecutesFills(b, capacity, stp, o, o.quantity);
      ConsumeTakesMin(SeenNow(b, stp, o), o.quantity);
    }
  }

  /**
   Below 2^32 shares on the side walked, an order is refused exactly when the liquidity
   falls short, and no walk misses.
   */
  lemma SmallSideRefusal(b: BookState, capacity: nat, stp: bool, o: IncomingOrder)
    requires WellFormed(b, capacity) && BestIsTrue(b) && SideTotal(b.live, !o.isBuy) < TWO_TO_32
    ensures !SubmitMisses(b, capacity, stp, o)
    ensures Refused(b, stp, o) <==> o.kind == FOK && Liquidity(b.live, stp, o) < o.quantity
  {
    hide WellFormed, BestIsTrue, SideTotal, Available, LiquidityFrom, WalkMisses;
    DryRunExact(b, capacity, stp, o);
    SmallWalkNeverMisses(b, capacity, stp, o, o.quantity);
  }

  /** All or nothing: either fills for the whole quantity and no kill, or one full kill and an untouched book. */
  ghost predicate Atomic(b: BookState, o: IncomingOrder, b': BookState, events: seq<Event>) {
    || (b' == b && events == [KillEvent(o.ref, o.quantity)])
    || (FillQuantity(events) == o.quantity && KillQuantity(events) == 0)
  }

  /**
   Fill-Or-Kill is atomic exactly when the walk sees nothing, or enough, or the dry
   run says no; whatever has wrapped or hides, as long as the cached best leads.
   */
  lemma FokAtomicExactly(b: BookState, capacity: nat, stp: bool, o: IncomingOrder)
    requires WellFormed(b, capacity) && Leads(b, !o.isBuy)
    requires o.kind == FOK && o.quantity > 0
    ensures var (b', events) := Submit(b, capacity, stp, o);
            var seen := Sum(SeenNow(b, stp, o));
            Atomic(b, o, b', events) <==> !(0 < seen < o.quantity && !Refused(b, stp, o))
  {
    hide Match, Add, Submit, Available, NextResting, WellFormed, Sum, SeenNow, Leads, Consume, AfterFills;
    var (b', events) := Submit(b, capacity, stp, o);
    var seen := SeenNow(b, stp, o);
    var fills := Consume(seen, o.quantity);
    FokExact(b, capacity, stp, o);
    PositiveShares(b, capacity);
    if !Refused(b, stp, o) {
      var left := o.quantity - Filled(fills);
      EventSums(o, fills, LastEvent(o, left));
      OneEvent(KillEvent(o.ref, left));
      if Sum(seen) == 0 {
        NothingSeen(b, stp, o);
        ConsumeNothing(b, o.quantity);
        assert Events(o, fills) + LastEvent(o, left) == [KillEvent(o.ref, o.quantity)];
      }
    }
  }

  lemma {:induction false} SeenAreLive(live: seq<Resting>, stp: bool, o: IncomingOrder, level: Option<Price4>)
    ensures forall x :: x in Seen(live, stp, o, level) ==> x in live
    decreases if level.None? then 0 else 1 + Beyond(level.value, !o.isBuy)
  {
    hide Filter, Visible;
    if level.Some? && Crosses(o, level.value) {
      FilterMembers(live, AtLevel(level.value, !o.isBuy));
      FilterMembers(Queue(live, level.value, !o.isBuy), EligibleTest(stp, o));
      NextVisibleIsWorse(live, level.value, !o.isBuy);
      SeenAreLive(live, stp, o, NextVisible(live, level.value, !o.isBuy));
    }
  }

  lemma NothingSeen(b: BookState, stp: bool, o: IncomingOrder)
    requires AllPositive(b.live) && Sum(SeenNow(b, stp, o)) == 0
    ensures SeenNow(b, stp, o) == []
  {
    hide Seen;
    var r := SeenNow(b, stp, o);
    SeenAreLive(b.live, stp, o, b.Best(!o.isBuy));
    if r != [] {
      SumPositive(r);
    }
  }

  /** Where no level hides, the orders seen are the reachable ones. */
  lemma {:induction false} SeenAreReachable(live: seq<Resting>, stp: bool, o: IncomingOrder, level: Option<Price4>)
    requires NoHiddenLevel(live, !o.isBuy)
    ensures Seen(live, stp, o, level) == Reachable(live, stp, o, level)
    decreases if level.None? then 0 else 1 + Beyond(level.value, !o.isBuy)
  {
    hide Filter, Visible, NoHiddenLevel, Prices;
    if level.Some? && Crosses(o, level.value) {
      NoHiddenLevelMeansAllVisible(live, !o.isBuy);
      NextVisibleIsWorse(live, level.value, !o.isBuy);
      SeenAreReachable(live, stp, o, NextVisible(live, level.value, !o.isBuy));
    }
  }

  /** By the reachable shares and the liquidity, below 2^32 shares on the side walked. */
  lemma FokAtomicBelowWrap(b: BookState, capacity: nat, stp: bool, o: IncomingOrder)
    requires WellFormed(b, capacity) && BestIsTrue(b) && SideTotal(b.live, !o.isBuy) < TWO_TO_32
    requires o.kind == FOK && o.quantity > 0
    ensures var (b', events) := Submit(b, capacity, stp, o);
            var reachable := Sum(ReachableNow(b.live, stp, o));
            Atomic(b, o, b', events) <==> !(0 < reachable < o.quantity <= Liquidity(b.live, stp, o))
  {
    hide Submit, WellFormed, Sum, Reachable, Seen, LiquidityFrom, SideTotal, Refused, Atomic, Leads, SubmitMisses,
      Prices, BestIn;
    SmallSideRefusal(b, capacity, stp, o);
    PositiveShares(b, capacity);
    SmallSideHidesNothing(b.live, !o.isBuy);
    SeenAreReachable(b.live, stp, o, b.Best(!o.isBuy));
    TrueBestLeads(b, !o.isBuy);
    FokAtomicExactly(b, capacity, stp, o);
  }

  // ----- Fill-Or-Kill without self-trade prevention, on every book -----

  /**
   All that stands on the visible levels from `level` on, as far as they cross: what the
   dry run adds up, unwrapped.
   */
  ghost function Chain(live: seq<Resting>, stp: bool, o: IncomingOrder, level: Option<Price4>): nat
    decreases if level.None? then 0 else 1 + Beyond(level.value, !o.isBuy)
  {
    if level.None? || !Crosses(o, level.value) then 0
    else LevelLiquidity(live, stp, o, level.value) + Chain(live, stp, o, NextVisible(live, level.value, !o.isBuy))
  }

  lemma {:induction false} DryRunWithinChain(live: seq<Resting>, stp: bool, o: IncomingOrder, level: Option<Price4>,
                                             total: Shares)
    ensures Available(live, stp, o, level, total) <= total + Chain(live, stp, o, level)
    decreases if level.None? then 0 else 1 + Beyond(level.value, !o.isBuy)
  {
    hide LevelLiquidity, NextVisible, Crosses, Wrap32;
    if level.Some? && total < o.quantity && Crosses(o, level.value) {
      var sum := Wrap32(total + LevelLiquidity(live, stp, o, level.value));
      WrapNotAbove(total + LevelLiquidity(live, stp, o, level.value));
      NextVisibleIsWorse(live, level.value, !o.isBuy);
      DryRunWithinChain(live, stp, o, NextVisible(live, level.value, !o.isBuy), sum);
    }
  }

  /** From a better visible level the chain holds at least as much. */
  lemma {:induction false} ChainFromBetter(live: seq<Resting>, stp: bool, o: IncomingOrder, r: Price4, s: Price4)
    requires s in Visible(live, !o.isBuy) && !Better(s, r, !o.isBuy)
    ensures Chain(live, stp, o, Some(r)) >= Chain(live, stp, o, Some(s))
    decreases Beyond(r, !o.isBuy)
  {
    hide LevelLiquidity, Visible;
    if r != s && Crosses(o, s) {
      assert s in WorseThan(Visible(live, !o.isBuy), r, !o.isBuy);
      ChainFromBetter(live, stp, o, NextVisible(live, r, !o.isBuy).value, s);
    }
  }

  /** A chain depends only on the queues it passes. */
  lemma {:induction false} ChainFrame(live: seq<Resting>, live': seq<Resting>, stp: bool, o: IncomingOrder, p: Price4,
                                      level: Option<Price4>)
    requires level.Some? ==> Better(p, level.value, !o.isBuy)
    requires SameBeyond(live, live', p, !o.isBuy)
    ensures Chain(live', stp, o, level) == Chain(live, stp, o, level)
    decreases if level.None? then 0 else 1 + Beyond(level.value, !o.isBuy)
  {
    hide Filter, Sum, Visible;
    if level.Some? && Crosses(o, level.value) {
      assert Queue(live', level.value, !o.isBuy) == Queue(live, level.value, !o.isBuy);
      assert SameBeyond(live, live', level.value, !o.isBuy);
      SameVisibleBeyond(live, live', level.value, !o.isBuy);
      ChainFrame(live, live', stp, o, p, NextVisible(live, level.value, !o.isBuy));
    }
  }

  /** After the first order at the cached best is filled, the new cached best starts a chain with all the rest. */
  lemma ChainAfterFill(b: BookState, capacity: nat, stp: bool, o: IncomingOrder)
    requires WellFormed(b, capacity) && !StpActive(stp, o) && NextResting(b, stp, o).Some?
    ensures var x := NextResting(b, stp, o).value;
            var b' := Reduce(b, x.ref, x.shares).0;
            Chain(b'.live, stp, o, b'.Best(!o.isBuy)) >= Chain(b.live, stp, o, b.Best(!o.isBuy)) - x.shares
  {
    hide Filter, Sum, NextResting, Visible, Prices, BestIn, Chain, DistinctRefs, AllPositive, Lookup, Crosses;
    NextRestingIsLive(b, capacity, stp, o);
    var side := !o.isBuy;
    var x := NextResting(b, stp, o).value;
    var p := x.price;
    var live' := Filter(b.live, NotRef(x.ref));
    var b' := Reduce(b, x.ref, x.shares).0;
    RemovalSameBeyond(b.live, x);
    SameVisibleBeyond(b.live, live', p, side);
    var next := NextVisible(b.live, p, side);
    ChainHead(b.live, stp, o, p);
    ChainFrame(b.live, live', stp, o, p, next);
    LevelWithout(b.live, stp, o, x);
    if Queue(live', p, side) != [] {
      ChainHead(live', stp, o, p);
    } else {
      EmptySum();
      RescanChain(live', stp, o, p);
    }
  }

  lemma ChainHead(live: seq<Resting>, stp: bool, o: IncomingOrder, p: Price4)
    requires Crosses(o, p)
    ensures Chain(live, stp, o, Some(p))
            == LevelLiquidity(live, stp, o, p) + Chain(live, stp, o, NextVisible(live, p, !o.isBuy))
    ensures NextVisible(live, p, !o.isBuy).Some? ==> Better(p, NextVisible(live, p, !o.isBuy).value, !o.isBuy)
  {
    hide Filter, Visible, LevelLiquidity;
  }

  /** Without self-trade prevention a level has the shares of its queue, and one order less when one is gone. */
  lemma LevelWithout(live: seq<Resting>, stp: bool, o: IncomingOrder, x: Resting)
    requires DistinctRefs(live) && x in live && x.isBuy == !o.isBuy && !StpActive(stp, o)
    ensures LevelLiquidity(Filter(live, NotRef(x.ref)), stp, o, x.price)
            == LevelLiquidity(live, stp, o, x.price) - x.shares
    ensures LevelLiquidity(Filter(live, NotRef(x.ref)), stp, o, x.price)
            == Sum(Queue(Filter(live, NotRef(x.ref)), x.price, x.isBuy))
  {
    hide Filter, Sum, DistinctRefs;
    var q := Queue(live, x.price, x.isBuy);
    var q' := Queue(Filter(live, NotRef(x.ref)), x.price, x.isBuy);
    RemovalSameBeyond(live, x);
    FilterDistinct(live, AtLevel(x.price, x.isBuy));
    FilterMembers(live, AtLevel(x.price, x.isBuy));
    FilterAll(q, Anyone);
    FilterAll(q', Anyone);
    SumRemove(q, x);
  }

  /** The level a rescan finds starts a chain with all that is visible beyond any price. */
  lemma RescanChain(live: seq<Resting>, stp: bool, o: IncomingOrder, p: Price4)
    ensures Chain(live, stp, o, BestIn(Visible(live, !o.isBuy), !o.isBuy))
            >= Chain(live, stp, o, NextVisible(live, p, !o.isBuy))
  {
    hide Visible;
    var next := NextVisible(live, p, !o.isBuy);
    if next.Some? {
      assert next.value in Visible(live, !o.isBuy);
      ChainFromBetter(live, stp, o, BestIn(Visible(live, !o.isBuy), !o.isBuy).value, next.value);
    }
  }

  /** Without self-trade prevention the walk fills all that the chain holds, whatever wrapped or hides. */
  lemma {:induction false} ChainIsFilled(b: BookState, capacity: nat, stp: bool, o: IncomingOrder, remaining: Shares)
    requires WellFormed(b, capacity) && !StpActive(stp, o)
    requires remaining <= Chain(b.live, stp, o, b.Best(!o.isBuy))
    ensures Match(b, capacity, stp, o, remaining).2 == 0
    decreases remaining
  {
    hide WellFormed, NextResting, Reduce, Chain, Lookup;
    if remaining > 0 {
      ChainMeansResting(b, capacity, stp, o);
      NextRestingIsLive(b, capacity, stp, o);
      var x := NextResting(b, stp, o).value;
      var quantity := Min(remaining, x.shares);
      ReduceWellFormed(b, capacity, x.ref, quantity);
      ChainAfterFill(b, capacity, stp, o);
      if quantity < remaining {
        ChainIsFilled(Reduce(b, x.ref, quantity).0, capacity, stp, o, remaining - quantity);
      }
    }
  }

  lemma ChainMeansResting(b: BookState, capacity: nat, stp: bool, o: IncomingOrder)
    requires WellFormed(b, capacity) && !StpActive(stp, o) && Chain(b.live, stp, o, b.Best(!o.isBuy)) > 0
    ensures NextResting(b, stp, o).Some?
  {
    hide Filter, DistinctRefs, AllPositive;
    var best := b.Best(!o.isBuy).value;
    QueueEmptyIffNoPrice(b.live, best, !o.isBuy);
    FilterAll(Queue(b.live, best, !o.isBuy), Anyone);
  }

  /**
   Without self-trade prevention Fill-Or-Kill is all or nothing on every book:
   cached bests may be false, counters may have wrapped, and so may the dry run's sum.
   */
  lemma FokAtomicWithoutStp(b: BookState, capacity: nat, stp: bool, o: IncomingOrder)
    requires WellFormed(b, capacity) && !StpActive(stp, o) && o.kind == FOK && o.quantity > 0
    ensures var (b', events) := Submit(b, capacity, stp, o);
            Atomic(b, o, b', events)
  {
    hide Match, Available, NextResting, WellFormed, Chain;
    if !Refused(b, stp, o) {
      DryRunWithinChain(b.live, stp, o, b.Best(!o.isBuy), 0);
      ChainIsFilled(b, capacity, stp, o, o.quantity);
      SubmitWalks(b, capacity, stp, o);
    }
  }

  // ----- nothing shadowed, on every book whose cached best leads -----

  /** When nothing that could trade stands beyond a level, neither does anything of a chain. */
  lemma {:induction false} ChainOfNothing(live: seq<Resting>, stp: bool, o: IncomingOrder, p: Price4,
                                          level: Option<Price4>)
    requires level.Some? ==> Better(p, level.value, !o.isBuy)
    requires forall x :: x in live && MatchTest(stp, o, None).Holds(x) ==> !Better(p, x.price, !o.isBuy)
    ensures Chain(live, stp, o, level) == 0
    decreases if level.None? then 0 else 1 + Beyond(level.value, !o.isBuy)
  {
    hide Filter, Sum, Visible;
    if level.Some? && Crosses(o, level.value) {
      var q := Queue(live, level.value, !o.isBuy);
      FilterMembers(live, AtLevel(level.value, !o.isBuy));
      FilterNone(q, EligibleTest(stp, o));
      EmptySum();
      NextVisibleIsWorse(live, level.value, !o.isBuy);
      ChainOfNothing(live, stp, o, p, NextVisible(live, level.value, !o.isBuy));
    }
  }

  /** When nothing is shadowed the walk sees all that the dry run adds up. */
  lemma {:induction false} ChainIsSeen(live: seq<Resting>, stp: bool, o: IncomingOrder, level: Option<Price4>)
    requires NoneShadowed(live, stp, o)
    ensures Sum(Seen(live, stp, o, level)) == Chain(live, stp, o, level)
    decreases if level.None? then 0 else 1 + Beyond(level.value, !o.isBuy)
  {
    hide Filter, Sum, Visible, Queue, NextVisible;
    EmptySum();
    if level.Some? && Crosses(o, level.value) {
      var p := level.value;
      var next := NextVisible(live, p, !o.isBuy);
      var e := EligibleOf(Queue(live, p, !o.isBuy), stp, o);
      NextVisibleIsWorse(live, p, !o.isBuy);
      BarredInQueue(live, stp, o, p);
      if e == Queue(live, p, !o.isBuy) {
        ChainIsSeen(live, stp, o, next);
        SumConcat(e, Seen(live, stp, o, next));
      } else {
        ChainOfNothing(live, stp, o, p, next);
        assert e + [] == e;
      }
    }
  }

  /** Fill-Or-Kill is all or nothing whenever no order that could trade stands behind a barred one. */
  lemma FokAtomicUnshadowed(b: BookState, capacity: nat, stp: bool, o: IncomingOrder)
    requires WellFormed(b, capacity) && Leads(b, !o.isBuy) && NoneShadowed(b.live, stp, o)
    requires o.kind == FOK && o.quantity > 0
    ensures var (b', events) := Submit(b, capacity, stp, o);
            Atomic(b, o, b', events)
  {
    hide Submit, WellFormed, Sum, Seen, Available, Chain, Leads, NoneShadowed, Atomic;
    DryRunWithinChain(b.live, stp, o, b.Best(!o.isBuy), 0);
    ChainIsSeen(b.live, stp, o, b.Best(!o.isBuy));
    FokAtomicExactly(b, capacity, stp, o);
  }

  lemma ConsumeNothing(b: BookState, wanted: Shares)
    ensures Consume([], wanted) == [] && AfterFills(b, []) == b && Filled([]) == 0
  {
  }

  // ----- whole runs -----

  ghost function SubmitAll(b: BookState, capacity: nat, stp: bool, orders: seq<IncomingOrder>): (BookState, seq<Event>)
    requires WellFormed(b, capacity)
    decreases |orders|
  {
    if orders == [] then (b, [])
    else
      var (b', events) := Submit(b, capacity, stp, orders[0]);
      CallConservesExactly(b, capacity, stp, orders[0]);
      var (b'', more) := SubmitAll(b', capacity, stp, orders[1..]);
      (b'', events + more)
  }

  function TotalQuantity(orders: seq<IncomingOrder>): nat {
    if orders == [] then 0 else orders[0].quantity + TotalQuantity(orders[1..])
  }

  /** No two incoming orders share a reference, and none uses the reference of a live order. */
  ghost predicate FreshRefs(live: seq<Resting>, orders: seq<IncomingOrder>) {
    && (forall i, x :: 0 <= i < |orders| && x in live ==> orders[i].ref != x.ref)
    && (forall i, j :: 0 <= i < j < |orders| ==> orders[i].ref != orders[j].ref)
  }

  /** With a fresh reference and room for one more order, a rest is always accepted; only that reference is new. */
  lemma FreshRestAccepted(b: BookState, capacity: nat, stp: bool, o: IncomingOrder)
    requires WellFormed(b, capacity)
    requires |b.live| < capacity && forall x :: x in b.live ==> x.ref != o.ref
    ensures RestAccepted(b, capacity, stp, o)
    ensures var b' := Submit(b, capacity, stp, o).0;
            && |b'.live| <= |b.live| + 1
            && forall y :: y in b'.live ==> y.ref == o.ref || exists x :: x in b.live && x.ref == y.ref
  {
    hide Match, Available, NextResting, WellFormed;
    MatchSplits(b, capacity, stp, o, o.quantity);
    MatchMembers(b, capacity, stp, o, o.quantity);
    var live' := Match(b, capacity, stp, o, o.quantity).0.live;
    forall y | y in live'
      ensures exists x :: x in b.live && x.ref == y.ref
    {
      var x :| x in b.live && SameTerms(x, y);
      assert x.ref == y.ref;
    }
    if o.quantity > 0 && !Refused(b, stp, o) {
      SubmitWalks(b, capacity, stp, o);
    }
  }

  lemma {:induction false} SumsOfConcat(a: seq<Event>, b: seq<Event>)
    ensures FillQuantity(a + b) == FillQuantity(a) + FillQuantity(b)
    ensures KillQuantity(a + b) == KillQuantity(a) + KillQuantity(b)
  {
    if a == [] {
      assert a + b == b;
    } else {
      SumsOfConcat(a[1..], b);
      assert (a + b)[1..] == a[1..] + b;
    }
  }

  /** Every rest that the run announces is accepted by the book. */
  ghost predicate RestsAccepted(b: BookState, capacity: nat, stp: bool, orders: seq<IncomingOrder>)
    requires WellFormed(b, capacity)
    decreases |orders|
  {
    orders != [] ==>
      var (b', events) := Submit(b, capacity, stp, orders[0]);
      && (RestQuantity(events) == 0 || RestAccepted(b, capacity, stp, orders[0]))
      && (CallConservesExactly(b, capacity, stp, orders[0]); RestsAccepted(b', capacity, stp, orders[1..]))
  }

  /**
   Over every run what the book gained, plus twice the fills, plus the kills, is
   at most what was submitted; it is all of it exactly when every rest that was
   announced was accepted.
   */
  lemma {:induction false} RunConservesExactly(b: BookState, capacity: nat, stp: bool, orders: seq<IncomingOrder>)
    requires WellFormed(b, capacity)
    ensures var (b', events) := SubmitAll(b, capacity, stp, orders);
            var accounted := Sum(b'.live) - Sum(b.live) + 2 * FillQuantity(events) + KillQuantity(events);
            && WellFormed(b', capacity)
            && accounted <= TotalQuantity(orders)
            && (accounted == TotalQuantity(orders) <==> RestsAccepted(b, capacity, stp, orders))
    decreases |orders|
  {
    hide Submit, WellFormed, Sum, RestAccepted;
    if orders != [] {
      var (b', events) := Submit(b, capacity, stp, orders[0]);
      CallConservesExactly(b, capacity, stp, orders[0]);
      RunConservesExactly(b', capacity, stp, orders[1..]);
      SumsOfConcat(events, SubmitAll(b', capacity, stp, orders[1..]).1);
    }
  }

  /** With fresh references and spare capacity every rest is accepted. */
  lemma {:induction false} FreshRestsAccepted(b: BookState, capacity: nat, stp: bool, orders: seq<IncomingOrder>)
    requires WellFormed(b, capacity)
    requires FreshRefs(b.live, orders) && |b.live| + |orders| <= capacity
    ensures RestsAccepted(b, capacity, stp, orders)
    decreases |orders|
  {
    hide Submit, WellFormed, Sum, RestAccepted;
    if orders != [] {
      var b' := Submit(b, capacity, stp, orders[0]).0;
      FreshRestAccepted(b, capacity, stp, orders[0]);
      CallConservesExactly(b, capacity, stp, orders[0]);
      forall i, x | 0 <= i < |orders[1..]| && x in b'.live
        ensures orders[1..][i].ref != x.ref
      {
        assert orders[1..][i] == orders[i + 1];
      }
      FreshRestsAccepted(b', capacity, stp, orders[1..]);
    }
  }

  /** Hence over whole runs with fresh references and spare capacity shares are conserved. */
  lemma RunConserves(b: BookState, capacity: nat, stp: bool, orders: seq<IncomingOrder>)
    requires WellFormed(b, capacity)
    requires FreshRefs(b.live, orders) && |b.live| + |orders| <= capacity
    ensures var (b', events) := SubmitAll(b, capacity, stp, orders);
            TotalQuantity(orders) == Sum(b'.live) - Sum(b.live) + 2 * FillQuantity(events) + KillQuantity(events)
  {
    hide SubmitAll, WellFormed, Sum, FreshRefs, RestsAccepted;
    FreshRestsAccepted(b, capacity, stp, orders);
    RunConservesExactly(b, capacity, stp, orders);
  }

  /** One live bid. */
  const LONE_BID: Resting := Resting(1, 100, 5, true, 0)

  const LONE_BOOK: BookState := BookState([LONE_BID], Some(100), None)

  const REUSED_REF: IncomingOrder := IncomingOrder(1, 99, 5, true, Limit, 0)

  /** A rest that is announced and refused: the order reuses a live reference, and its shares are nowhere. */
  lemma RefusedRestExample()
    ensures WellFormed(LONE_BOOK, 10)
    ensures Submit(LONE_BOOK, 10, false, REUSED_REF) == (LONE_BOOK, [RestEvent(1, 99, 5, true)])
    ensures !RestAccepted(LONE_BOOK, 10, false, REUSED_REF)
  {
    assert LONE_BID in LONE_BOOK.live;
    assert LONE_BID.price in Prices(LONE_BOOK.live, true);
    assert WellFormed(LONE_BOOK, 10);
    assert Match(LONE_BOOK, 10, false, REUSED_REF, 5) == (LONE_BOOK, [], 5);
    assert Lookup(LONE_BOOK.live, 1).Some?;
    assert Events(REUSED_REF, []) + [RestEvent(1, 99, 5, true)] == [RestEvent(1, 99, 5, true)];
  }

  // ----- where all-or-nothing and the dry run fail -----

  /** An ask of another trader and one of trader 7 at one price, and more of the other trader behind them. */
  const SHADOWED_ASKS: seq<Resting> := [Resting(1, 100, 5, false, 8), Resting(2, 100, 5, false, 7),
                                        Resting(3, 101, 5, false, 8)]

  const SHADOWED_BOOK: BookState := BookState(SHADOWED_ASKS, None, Some(100))

  const SHADOWED_FOK: IncomingOrder := IncomingOrder(9, 101, 10, true, FOK, 7)

  lemma ShadowedBookShape()
    ensures WellFormed(SHADOWED_BOOK, 10) && BestIsTrue(SHADOWED_BOOK)
    ensures SideTotal(SHADOWED_ASKS, false) == 15
    ensures Liquidity(SHADOWED_ASKS, true, SHADOWED_FOK) == 10
    ensures Queue(SHADOWED_ASKS, 100, false) == [SHADOWED_ASKS[0], SHADOWED_ASKS[1]]
  {
    hide Filter, Sum;
    var a, b, c := SHADOWED_ASKS[0], SHADOWED_ASKS[1], SHADOWED_ASKS[2];
    assert SHADOWED_ASKS == [a, b, c];
    ThreeOrders(a, b, c, OnSide(false));
    ThreeOrders(a, b, c, AtLevel(100, false));
    ThreeOrders(a, b, c, MatchTest(true, SHADOWED_FOK, None));
    assert a in SHADOWED_ASKS && c in SHADOWED_ASKS;
    assert Prices(SHADOWED_ASKS, false) == {100, 101};
    assert Prices(SHADOWED_ASKS, true) == {};
    BestIsUnique({100, 101}, false, Some(100));
    forall isBuy
      ensures SHADOWED_BOOK.Best(isBuy) == BestIn(Prices(SHADOWED_ASKS, isBuy), isBuy)
    {
    }
  }

  /**
   With self-trade prevention Fill-Or-Kill is not all or nothing: the dry run counts
   the shares behind the barred order, the walk stops before them, and the order is
   filled in part and then killed.
   */
  lemma FokPartialExample()
    ensures WellFormed(SHADOWED_BOOK, 10) && BestIsTrue(SHADOWED_BOOK)
    ensures Submit(SHADOWED_BOOK, 10, true, SHADOWED_FOK).1 == [FillEvent(9, 1, 100, 5), KillEvent(9, 5)]
    ensures !Atomic(SHADOWED_BOOK, SHADOWED_FOK, Submit(SHADOWED_BOOK, 10, true, SHADOWED_FOK).0,
                    Submit(SHADOWED_BOOK, 10, true, SHADOWED_FOK).1)
  {
    hide Filter, Sum, Submit, AfterFills, LiquidityFrom, BestIn, Prices, WellFormed, SubmitMisses, Refused;
    ShadowedBookShape();
    var a, b := SHADOWED_ASKS[0], SHADOWED_ASKS[1];
    TwoOrders(a, b, NotTrader(7));
    assert EligibleOf([a, b], true, SHADOWED_FOK) == [a];
    assert SeenNow(SHADOWED_BOOK, true, SHADOWED_FOK) == [a];
    SmallSideRefusal(SHADOWED_BOOK, 10, true, SHADOWED_FOK);
    TrueBestLeads(SHADOWED_BOOK, false);
    FokExact(SHADOWED_BOOK, 10, true, SHADOWED_FOK);
    var fills := Consume([a], 10);
    assert [a][1..] == [] && fills == [Fill(1, 100, 5)];
    assert fills[1..] == [];
    assert Events(SHADOWED_FOK, fills) == [FillEvent(9, 1, 100, 5)];
    OneEvent(KillEvent(9, 5));
    EventSums(SHADOWED_FOK, fills, [KillEvent(9, 5)]);
  }

  const DEEP_ASKS: seq<Resting> := [Resting(1, 100, 0xFFFF_FFFE, false, 0), Resting(2, 101, 10, false, 0)]

  const DEEP_FOK: IncomingOrder := IncomingOrder(9, 101, 0xFFFF_FFFF, true, FOK, 0)

  lemma DeepLevels()
    ensures LevelLiquidity(DEEP_ASKS, false, DEEP_FOK, 100) == 0xFFFF_FFFE
    ensures LevelLiquidity(DEEP_ASKS, false, DEEP_FOK, 101) == 10
    ensures Liquidity(DEEP_ASKS, false, DEEP_FOK) == 0x1_0000_0008
    ensures NextVisible(DEEP_ASKS, 100, false) == Some(101) && NextVisible(DEEP_ASKS, 101, false) == None
  {
    hide Filter, Sum;
    var a, b := DEEP_ASKS[0], DEEP_ASKS[1];
    assert DEEP_ASKS == [a, b];
    TwoOrders(a, b, AtLevel(100, false));
    TwoOrders(a, b, AtLevel(101, false));
    TwoOrders(a, b, MatchTest(false, DEEP_FOK, None));
    FilterAll(Queue(DEEP_ASKS, 100, false), Anyone);
    FilterAll(Queue(DEEP_ASKS, 101, false), Anyone);
    assert a in DEEP_ASKS && b in DEEP_ASKS;
    assert Prices(DEEP_ASKS, false) == {100, 101};
    assert Visible(DEEP_ASKS, false) == {100, 101};
    assert WorseThan({100, 101}, 100, false) == {101};
    assert WorseThan({100, 101}, 101, false) == {};
    BestIsUnique({101}, false, Some(101));
    BestIsUnique({}, false, None);
  }

  /** When the walked side holds 2^32 shares or more, the 32-bit sum can wrap and refuse what could be filled. */
  lemma DryRunWrapExample()
    ensures Available(DEEP_ASKS, false, DEEP_FOK, Some(100), 0) == 8 < DEEP_FOK.quantity
    ensures Liquidity(DEEP_ASKS, false, DEEP_FOK) > DEEP_FOK.quantity
  {
    hide LevelLiquidity, NextVisible, LiquidityFrom;
    DeepLevels();
    assert Available(DEEP_ASKS, false, DEEP_FOK, None, 8) == 8;
    assert Available(DEEP_ASKS, false, DEEP_FOK, Some(101), 0xFFFF_FFFE) == 8;
  }
}
