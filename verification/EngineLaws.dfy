/**
 What submissions promise in terms of the orders and the events alone: which
 orders a fill may join and at what price, in what order fills come, what is
 announced, what is left behind, and whom self-trade prevention concerns.
 */
module EngineLaws {
  import opened BookSpec
  import opened EngineRuns
  import opened EngineSpec
  import opened ItchTypes
  import opened Options
  import opened Orders
  import opened Words

  /**
   The incoming order may trade with the resting one: other side, within the limit
   unless it is a Market order, and with prevention on not of the same trader,
   where an order without a trader has none to share.
   */
  predicate MayTrade(stp: bool, o: IncomingOrder, x: Resting) {
    && x.isBuy != o.isBuy
    && (o.kind == Market || if o.isBuy then x.price <= o.price else x.price >= o.price)
    && !(stp && o.trader != 0 && x.trader == o.trader)
  }

  /** Exactly the other orders of a named trader are barred, in the walk and in the dry run. */
  lemma BarredExactly(stp: bool, o: IncomingOrder, x: Resting)
    ensures Eligible(stp, o, x) <==> !(stp && o.trader != 0 && x.trader == o.trader)
    ensures EligibleTest(stp, o).Holds(x) <==> !(stp && o.trader != 0 && x.trader == o.trader)
    ensures MatchTest(stp, o, None).Holds(x) <==> MayTrade(stp, o, x)
  {
  }

  // ----- orders without a trader -----

  lemma {:induction false} MatchWithoutTrader(b: BookState, capacity: nat, o: IncomingOrder, remaining: Shares)
    requires WellFormed(b, capacity) && o.trader == 0
    ensures Match(b, capacity, true, o, remaining) == Match(b, capacity, false, o, remaining)
    decreases remaining
  {
    hide WellFormed, Reduce, Lookup, Filter;
    assert NextResting(b, true, o) == NextResting(b, false, o);
    if remaining > 0 && NextResting(b, true, o).Some? {
      NextRestingIsLive(b, capacity, true, o);
      var x := NextResting(b, true, o).value;
      var quantity := Min(remaining, x.shares);
      ReduceWellFormed(b, capacity, x.ref, quantity);
      MatchWithoutTrader(Reduce(b, x.ref, quantity).0, capacity, o, remaining - quantity);
    }
  }

  lemma {:induction false} DryRunWithoutTrader(live: seq<Resting>, o: IncomingOrder, level: Option<Price4>,
                                               total: Shares)
    requires o.trader == 0
    ensures Available(live, true, o, level, total) == Available(live, false, o, level, total)
    decreases if level.None? then 0 else 1 + Beyond(level.value, !o.isBuy)
  {
    hide Filter, Sum, Visible, Wrap32;
    if level.Some? && total < o.quantity && Crosses(o, level.value) {
      NextVisibleIsWorse(live, level.value, !o.isBuy);
      assert LevelLiquidity(live, true, o, level.value) == LevelLiquidity(live, false, o, level.value);
      DryRunWithoutTrader(live, o, NextVisible(live, level.value, !o.isBuy),
                          Wrap32(total + LevelLiquidity(live, true, o, level.value)));
    }
  }

  /** For an order without a trader it makes no difference whether prevention is on. */
  lemma NoTraderNoPrevention(b: BookState, capacity: nat, o: IncomingOrder)
    requires WellFormed(b, capacity) && o.trader == 0
    ensures Submit(b, capacity, true, o) == Submit(b, capacity, false, o)
  {
    hide Match, Available, WellFormed, Add;
    MatchWithoutTrader(b, capacity, o, o.quantity);
    DryRunWithoutTrader(b.live, o, b.Best(!o.isBuy), 0);
  }

  // ----- what a fill joins -----

  /** The fill is of some of this order's shares, at this order's price, and the two may trade. */
  predicate FillsFrom(stp: bool, o: IncomingOrder, x: Resting, f: Fill) {
    && MayTrade(stp, o, x)
    && f.resting == x.ref && f.price == x.price && 0 < f.quantity <= x.shares && f.quantity <= o.quantity
  }

  ghost predicate RealFill(live: seq<Resting>, stp: bool, o: IncomingOrder, f: Fill) {
    exists x :: x in live && FillsFrom(stp, o, x, f)
  }

  lemma NextMayTrade(b: BookState, capacity: nat, stp: bool, o: IncomingOrder)
    requires WellFormed(b, capacity) && NextResting(b, stp, o).Some?
    ensures MayTrade(stp, o, NextResting(b, stp, o).value)
  {
    hide Filter, DistinctRefs, AllPositive;
    NextRestingIsLive(b, capacity, stp, o);
    var q := Queue(b.live, b.Best(!o.isBuy).value, !o.isBuy);
    FilterMembers(q, EligibleTest(stp, o));
    assert NextResting(b, stp, o).value in EligibleOf(q, stp, o);
  }

  lemma {:induction false} WalkFillsAreReal(b: BookState, capacity: nat, stp: bool, o: IncomingOrder,
                                            remaining: Shares)
    requires WellFormed(b, capacity) && remaining <= o.quantity
    ensures forall f :: f in Match(b, capacity, stp, o, remaining).1 ==> RealFill(b.live, stp, o, f)
    decreases remaining
  {
    hide WellFormed, NextResting, Lookup, Reduce, MayTrade;
    if remaining > 0 && NextResting(b, stp, o).Some? {
      NextRestingIsLive(b, capacity, stp, o);
      NextMayTrade(b, capacity, stp, o);
      var x := NextResting(b, stp, o).value;
      var quantity := Min(remaining, x.shares);
      var b1 := Reduce(b, x.ref, quantity).0;
      ReduceWellFormed(b, capacity, x.ref, quantity);
      ReduceMembers(b, capacity, x.ref, quantity);
      WalkFillsAreReal(b1, capacity, stp, o, remaining - quantity);
      assert FillsFrom(stp, o, x, Fill(x.ref, x.price, quantity));
      forall f | f in Match(b1, capacity, stp, o, remaining - quantity).1
        ensures RealFill(b.live, stp, o, f)
      {
        RealBefore(b.live, b1.live, stp, o, f);
      }
    }
  }

  lemma RealBefore(live: seq<Resting>, live': seq<Resting>, stp: bool, o: IncomingOrder, f: Fill)
    requires ComesFrom(live, live') && RealFill(live', stp, o, f)
    ensures RealFill(live, stp, o, f)
  {
    var y :| y in live' && FillsFrom(stp, o, y, f);
    var x :| x in live && SameTerms(x, y);
    assert FillsFrom(stp, o, x, f);
  }

  /** The event is a fill of the incoming order against this resting order. */
  predicate Joins(stp: bool, o: IncomingOrder, x: Resting, e: Event) {
    e.FillEvent? && e.aggressor == o.ref && FillsFrom(stp, o, x, Fill(e.resting, e.price, e.quantity))
  }

  lemma {:induction false} EventsAre(o: IncomingOrder, fills: seq<Fill>)
    ensures |Events(o, fills)| == |fills|
    ensures forall i :: 0 <= i < |fills| ==>
                          Events(o, fills)[i]
                          == FillEvent(o.ref, fills[i].resting, fills[i].price, fills[i].quantity)
  {
    if fills != [] {
      EventsAre(o, fills[1..]);
    }
  }

  /**
   Every fill joins the incoming order with an order that was live, on the other
   side, at that order's price and within the limit, for at most its shares, and
   never one that prevention bars.
   */
  lemma FillsAreReal(b: BookState, capacity: nat, stp: bool, o: IncomingOrder)
    requires WellFormed(b, capacity)
    ensures forall e :: e in Submit(b, capacity, stp, o).1 && e.FillEvent?
                        ==> exists x :: x in b.live && Joins(stp, o, x, e)
  {
    hide Match, Available, WellFormed, Add, NextResting, FillsFrom;
    if o.quantity > 0 && !Refused(b, stp, o) {
      SubmitWalks(b, capacity, stp, o);
      WalkFillsAreReal(b, capacity, stp, o, o.quantity);
      var fills := Match(b, capacity, stp, o, o.quantity).1;
      EventsAre(o, fills);
      forall e | e in Submit(b, capacity, stp, o).1 && e.FillEvent?
        ensures exists x :: x in b.live && Joins(stp, o, x, e)
      {
        var i :| 0 <= i < |fills| && Events(o, fills)[i] == e;
        assert RealFill(b.live, stp, o, fills[i]);
        var x :| x in b.live && FillsFrom(stp, o, x, fills[i]);
        assert Joins(stp, o, x, e);
      }
    }
  }

  // ----- what is announced -----

  /**
   A submission of no shares does nothing. Otherwise fills come first, and what they
   leave is announced once, at the end: as resting under the order's own terms if it
   is a limit order, as killed if not.
   */
  lemma Announced(b: BookState, capacity: nat, stp: bool, o: IncomingOrder)
    requires WellFormed(b, capacity)
    ensures var (b', events) := Submit(b, capacity, stp, o);
            var filled := FillQuantity(events);
            && (o.quantity == 0 ==> b' == b && events == [])
            && filled <= o.quantity
            && (filled == o.quantity ==> forall e :: e in events ==> e.FillEvent?)
            && (filled < o.quantity ==>
                  var last := |events| - 1;
                  && last >= 0
                  && (forall e :: e in events[..last] ==> e.FillEvent?)
                  && events[last] == if o.kind == Limit then RestEvent(o.ref, o.price, o.quantity - filled, o.isBuy)
                                     else KillEvent(o.ref, o.quantity - filled))
  {
    hide Match, Available, WellFormed, Add, NextResting, Events, FillQuantity, RestQuantity, KillQuantity;
    OneEvent(KillEvent(o.ref, o.quantity));
    if o.quantity > 0 && !Refused(b, stp, o) {
      SubmitWalks(b, capacity, stp, o);
      var (_, fills, left) := Match(b, capacity, stp, o, o.quantity);
      OnlyFills(o, fills);
      var events := Events(o, fills) + LastEvent(o, left);
      if left > 0 {
        assert events[..|fills|] == Events(o, fills);
      } else {
        assert events == Events(o, fills);
      }
    }
  }

  lemma OnlyFills(o: IncomingOrder, fills: seq<Fill>)
    ensures |Events(o, fills)| == |fills|
    ensures forall e :: e in Events(o, fills) ==> e.FillEvent?
  {
    EventsAre(o, fills);
  }

  /** A rest that the book accepts is stored as it was announced, under the order's own reference and trader. */
  lemma RestIsStored(b: BookState, capacity: nat, stp: bool, o: IncomingOrder)
    requires WellFormed(b, capacity)
    ensures var (b', events) := Submit(b, capacity, stp, o);
            RestQuantity(events) > 0 && RestAccepted(b, capacity, stp, o) ==>
              var x := Lookup(b'.live, o.ref);
              && x.Some? && x.value == Resting(o.ref, o.price, x.value.shares, o.isBuy, o.trader)
              && x.value.shares == RestQuantity(events)
  {
    hide Match, Available, WellFormed, Add, NextResting;
    OneEvent(KillEvent(o.ref, o.quantity));
    if o.quantity > 0 && !Refused(b, stp, o) {
      SubmitWalks(b, capacity, stp, o);
      var (b', fills, left) := Match(b, capacity, stp, o, o.quantity);
      AddStores(b', capacity, Resting(o.ref, o.price, left, o.isBuy, o.trader), o.ref);
    }
  }

  // ----- in what order fills come -----

  ghost predicate Earlier(live: seq<Resting>, x: Resting, y: Resting) {
    exists i: nat, j: nat :: i < j < |live| && At(live, i, x) && At(live, j, y)
  }

  predicate At(live: seq<Resting>, i: nat, x: Resting)
    requires i < |live|
  {
    live[i] == x
  }

  /** Price first, then arrival. */
  ghost predicate Ahead(live: seq<Resting>, x: Resting, y: Resting) {
    if x.price == y.price then Earlier(live, x, y) else if x.isBuy then x.price > y.price else x.price < y.price
  }

  lemma {:induction false} FilterOrder(s: seq<Resting>, t: Test, i: nat, j: nat)
    requires i < j < |Filter(s, t)|
    ensures Earlier(s, Filter(s, t)[i], Filter(s, t)[j])
  {
    var init, last := s[..|s| - 1], s[|s| - 1];
    var f := Filter(init, t);
    if j < |f| {
      FilterOrder(init, t, i, j);
      var a: nat, c: nat :| a < c < |init| && At(init, a, f[i]) && At(init, c, f[j]);
      assert At(s, a, f[i]) && At(s, c, f[j]);
    } else {
      FilterMembers(init, t);
      assert f[i] in init;
      var a: nat :| a < |init| && init[a] == f[i];
      assert At(s, a, f[i]) && At(s, |s| - 1, last);
    }
  }

  /** The list is ordered by price, best first, and by arrival, and nothing in it is better than `level`. */
  ghost predicate Prioritised(live: seq<Resting>, list: seq<Resting>, level: Price4, isBuy: bool) {
    && (forall x :: x in list ==> x.isBuy == isBuy && !Better(x.price, level, isBuy))
    && (forall i, j :: 0 <= i < j < |list| ==> Ahead(live, list[i], list[j]))
  }

  /** A level's orders followed by a list of worse ones. */
  lemma LevelFirst(live: seq<Resting>, stp: bool, o: IncomingOrder, p: Price4, rest: seq<Resting>,
                   next: Option<Price4>)
    requires rest != [] ==> next.Some? && Better(p, next.value, !o.isBuy)
    requires next.Some? ==> Prioritised(live, rest, next.value, !o.isBuy)
    ensures Prioritised(live, EligibleOf(Queue(live, p, !o.isBuy), stp, o) + rest, p, !o.isBuy)
  {
    hide Filter, Earlier;
    var q := Queue(live, p, !o.isBuy);
    var e := EligibleOf(q, stp, o);
    EligibleInOrder(live, stp, o, p);
    forall i, j | 0 <= i < j < |e + rest|
      ensures Ahead(live, (e + rest)[i], (e + rest)[j])
    {
      if j < |e| {
      } else if i < |e| {
        assert e[i] in e && rest[j - |e|] in rest;
      } else {
        assert Ahead(live, rest[i - |e|], rest[j - |e|]);
      }
    }
  }

  /** The eligible orders of a level, in order of arrival. */
  lemma EligibleInOrder(live: seq<Resting>, stp: bool, o: IncomingOrder, p: Price4)
    ensures var e := EligibleOf(Queue(live, p, !o.isBuy), stp, o);
            && (forall x :: x in e ==> x in live && x.price == p && x.isBuy == !o.isBuy)
            && (forall i, j :: 0 <= i < j < |e| ==> Earlier(live, e[i], e[j]))
  {
    hide Filter, Earlier;
    var side := !o.isBuy;
    var q := Queue(live, p, side);
    var e := EligibleOf(q, stp, o);
    FilterMembers(live, AtLevel(p, side));
    FilterMembers(q, EligibleTest(stp, o));
    forall i, j | 0 <= i < j < |e|
      ensures Earlier(live, e[i], e[j])
    {
      FilterOrder(q, EligibleTest(stp, o), i, j);
      EarlierInQueue(live, AtLevel(p, side), e[i], e[j]);
    }
  }

  lemma EarlierInQueue(live: seq<Resting>, t: Test, x: Resting, y: Resting)
    requires Earlier(Filter(live, t), x, y)
    ensures Earlier(live, x, y)
  {
    hide Filter;
    var q := Filter(live, t);
    var i: nat, j: nat :| i < j < |q| && At(q, i, x) && At(q, j, y);
    FilterOrder(live, t, i, j);
  }

  /** The orders a walk sees come in price-time priority. */
  lemma {:induction false} SeenPrioritised(live: seq<Resting>, stp: bool, o: IncomingOrder, level: Option<Price4>)
    requires level.Some?
    ensures Prioritised(live, Seen(live, stp, o, level), level.value, !o.isBuy)
    decreases 1 + Beyond(level.value, !o.isBuy)
  {
    hide Filter, Visible, Ahead, Queue, EligibleOf;
    if Crosses(o, level.value) {
      var next := NextVisible(live, level.value, !o.isBuy);
      NextVisibleIsWorse(live, level.value, !o.isBuy);
      LevelFirst(live, stp, o, level.value, [], None);
      if next.Some? {
        SeenPrioritised(live, stp, o, next);
        LevelFirst(live, stp, o, level.value, Seen(live, stp, o, next), next);
      }
    }
  }

  /** Greedy consumption goes down the list, taking whole orders until the last. */
  lemma {:induction false} ConsumeInOrder(orders: seq<Resting>, wanted: Shares)
    ensures var fills := Consume(orders, wanted);
            && |fills| <= |orders|
            && (forall i :: 0 <= i < |fills| ==> fills[i].resting == orders[i].ref && fills[i].price == orders[i].price)
            && (forall i :: 0 <= i < |fills| - 1 ==> fills[i].quantity == orders[i].shares)
    decreases |orders|
  {
    if wanted > 0 && orders != [] {
      var quantity := Min(wanted, orders[0].shares);
      var fills := Consume(orders, wanted);
      ConsumeInOrder(orders[1..], wanted - quantity);
      assert fills[1..] == Consume(orders[1..], wanted - quantity);
      forall i | 0 < i < |fills|
        ensures fills[i] == fills[1..][i - 1] && orders[i] == orders[1..][i - 1]
      {
      }
    }
  }

  /**
   Price-time priority: the resting orders of successive fills are ever further
   back, by price and then by arrival, and each but the last is filled completely;
   on every book whose cached best leads.
   */
  lemma FillsInPriority(b: BookState, capacity: nat, stp: bool, o: IncomingOrder) returns (taken: seq<Resting>)
    requires WellFormed(b, capacity) && Leads(b, !o.isBuy)
    ensures var events := Submit(b, capacity, stp, o).1;
            && |taken| <= |events|
            && (forall i :: 0 <= i < |events| ==> (events[i].FillEvent? <==> i < |taken|))
            && (forall i :: 0 <= i < |taken| ==> taken[i] in b.live && Joins(stp, o, taken[i], events[i]))
            && (forall i :: 0 <= i < |taken| - 1 ==> events[i].quantity == taken[i].shares)
            && (forall i, j :: 0 <= i < j < |taken| ==> Ahead(b.live, taken[i], taken[j]))
  {
    hide Match, Available, WellFormed, Add, NextResting, Leads, Seen, Consume, Ahead, FillsFrom;
    taken := [];
    if o.quantity > 0 && !Refused(b, stp, o) {
      var fills := Match(b, capacity, stp, o, o.quantity).1;
      SubmitWalks(b, capacity, stp, o);
      EventsAre(o, fills);
      MatchTakesSeen(b, capacity, stp, o, o.quantity);
      ConsumeInOrder(SeenNow(b, stp, o), o.quantity);
      taken := SeenNow(b, stp, o)[..|fills|];
      if b.Best(!o.isBuy).Some? {
        SeenPrioritised(b.live, stp, o, b.Best(!o.isBuy));
      } else {
        NoneSeen(b.live, stp, o);
      }
      SeenAreLive(b.live, stp, o, b.Best(!o.isBuy));
      WalkFillsAreReal(b, capacity, stp, o, o.quantity);
      forall i | 0 <= i < |taken|
        ensures taken[i] in b.live && FillsFrom(stp, o, taken[i], fills[i])
      {
        assert taken[i] == SeenNow(b, stp, o)[i];
        assert RealFill(b.live, stp, o, fills[i]);
        SameFill(b, capacity, stp, o, taken[i], fills[i]);
      }
    }
  }

  lemma NoneSeen(live: seq<Resting>, stp: bool, o: IncomingOrder)
    ensures Seen(live, stp, o, None) == []
  {
  }

  lemma SameFill(b: BookState, capacity: nat, stp: bool, o: IncomingOrder, x: Resting, f: Fill)
    requires WellFormed(b, capacity) && x in b.live && f.resting == x.ref && RealFill(b.live, stp, o, f)
    ensures FillsFrom(stp, o, x, f)
  {
    hide DistinctRefs, MayTrade;
    var y :| y in b.live && FillsFrom(stp, o, y, f);
    SameRefSameOrder(b.live, x, y);
  }

  lemma NeverEarlierThanItself(live: seq<Resting>, x: Resting, y: Resting)
    requires DistinctRefs(live) && Earlier(live, x, y)
    ensures x != y && !Earlier(live, y, x)
  {
    var i: nat, j: nat :| i < j < |live| && At(live, i, x) && At(live, j, y);
    RefsDifferAt(live, i, j);
    if Earlier(live, y, x) {
      var j': nat, i': nat :| j' < i' < |live| && At(live, j', y) && At(live, i', x);
      if i' != i {
        RefsDifferAt(live, i, i');
      } else {
        RefsDifferAt(live, j, j');
      }
    }
  }

  /** An order of the level that may trade is in front of whatever it is ahead of. */
  lemma FoundInLevel(live: seq<Resting>, stp: bool, o: IncomingOrder, y: Resting, list: seq<Resting>, j: nat)
    requires DistinctRefs(live) && y in live && MayTrade(stp, o, y)
    requires EligibleOf(Queue(live, y.price, !o.isBuy), stp, o) <= list
    requires j < |list| && Ahead(live, y, list[j])
    ensures exists i :: 0 <= i < j && list[i] == y
  {
    hide Filter, DistinctRefs, Earlier;
    var q := Queue(live, y.price, !o.isBuy);
    var e := EligibleOf(q, stp, o);
    EligibleInOrder(live, stp, o, y.price);
    FilterMembers(live, AtLevel(y.price, !o.isBuy));
    FilterMembers(q, EligibleTest(stp, o));
    assert y in e;
    var a :| 0 <= a < |e| && e[a] == y;
    assert list[a] == y;
    if j <= a {
      assert list[j] == e[j] && e[j] in e;
      NeverEarlierThanItself(live, y, e[j]);
    }
  }

  /** The reachable orders leave out nothing that is ahead of one of them. */
  lemma {:induction false} ReachableComplete(live: seq<Resting>, stp: bool, o: IncomingOrder, level: Option<Price4>,
                                             y: Resting, j: nat)
    requires DistinctRefs(live) && y in live && MayTrade(stp, o, y)
    requires level.Some? && !Better(y.price, level.value, !o.isBuy)
    requires j < |Reachable(live, stp, o, level)| && Ahead(live, y, Reachable(live, stp, o, level)[j])
    ensures exists i :: 0 <= i < j && Reachable(live, stp, o, level)[i] == y
    decreases 1 + Beyond(level.value, !o.isBuy)
  {
    hide Filter, Queue, DistinctRefs, Earlier, EligibleOf, NextPrice;
    var p, r := level.value, Reachable(live, stp, o, level);
    var e := EligibleOf(Queue(live, p, !o.isBuy), stp, o);
    EligibleInOrder(live, stp, o, p);
    if y.price == p {
      FoundInLevel(live, stp, o, y, r, j);
    } else {
      var next := NextPrice(live, p, !o.isBuy);
      BeyondIsNext(live, y, p);
      var rest := Reachable(live, stp, o, next);
      assert r == e + rest;
      ReachableComplete(live, stp, o, next, y, j - |e|);
      var i :| 0 <= i < j - |e| && rest[i] == y;
      assert r[|e| + i] == y;
    }
  }

  /**
   Nothing is passed over: an order that may trade and is ahead of one that was
   filled was itself filled before, completely; from true best prices, if the walk
   misses no level while shares are still wanted.
   */
  lemma NonePassedOver(b: BookState, capacity: nat, stp: bool, o: IncomingOrder, y: Resting, x: Resting, j: nat)
    requires WellFormed(b, capacity) && BestIsTrue(b) && !WalkStrays(b, capacity, stp, o, o.quantity)
    requires x in b.live && y in b.live && MayTrade(stp, o, y) && Ahead(b.live, y, x)
    requires var events := Submit(b, capacity, stp, o).1;
             j < |events| && events[j].FillEvent? && events[j].resting == x.ref
    ensures exists i :: 0 <= i < j
                        && Submit(b, capacity, stp, o).1[i] == FillEvent(o.ref, y.ref, y.price, y.shares)
  {
    hide Match, Available, WellFormed, NextResting, BestIsTrue, WalkStrays, Consume, Reachable, MayTrade, Ahead,
      AfterFills, BestIn;
    var events := Submit(b, capacity, stp, o).1;
    var fills := Match(b, capacity, stp, o, o.quantity).1;
    var r := ReachableNow(b.live, stp, o);
    SubmitWalks(b, capacity, stp, o);
    EventsAre(o, fills);
    MatchIsGreedy(b, capacity, stp, o, o.quantity);
    ConsumeInOrder(r, o.quantity);
    assert events[j] == Events(o, fills)[j];
    ReachedIsLive(b, capacity, stp, o, x, j);
    SideHasBest(b.live, stp, o, y);
    var best := BestIn(Prices(b.live, !o.isBuy), !o.isBuy);
    LiveDistinct(b, capacity);
    ReachableComplete(b.live, stp, o, best, y, j);
    var i :| 0 <= i < j && r[i] == y;
    assert Events(o, fills)[i] == FillEvent(o.ref, y.ref, y.price, y.shares);
    assert events[i] == Events(o, fills)[i];
  }

  lemma LiveDistinct(b: BookState, capacity: nat)
    requires WellFormed(b, capacity)
    ensures DistinctRefs(b.live)
  {
  }

  lemma {:induction false} ReachableAreLive(live: seq<Resting>, stp: bool, o: IncomingOrder, level: Option<Price4>)
    ensures forall x :: x in Reachable(live, stp, o, level) ==> x in live
    decreases if level.None? then 0 else 1 + Beyond(level.value, !o.isBuy)
  {
    hide Filter, Queue, EligibleOf, Prices, BestIn;
    if level.Some? && Crosses(o, level.value) {
      EligibleInOrder(live, stp, o, level.value);
      NextPriceFrame(live, live, level.value, !o.isBuy);
      ReachableAreLive(live, stp, o, NextPrice(live, level.value, !o.isBuy));
    }
  }

  lemma ReachedIsLive(b: BookState, capacity: nat, stp: bool, o: IncomingOrder, x: Resting, j: nat)
    requires WellFormed(b, capacity) && x in b.live
    requires j < |ReachableNow(b.live, stp, o)| && ReachableNow(b.live, stp, o)[j].ref == x.ref
    ensures ReachableNow(b.live, stp, o)[j] == x
  {
    hide Reachable, DistinctRefs, AllPositive, BestIn;
    ReachableAreLive(b.live, stp, o, BestIn(Prices(b.live, !o.isBuy), !o.isBuy));
    SameRefSameOrder(b.live, x, ReachableNow(b.live, stp, o)[j]);
  }

  lemma SideHasBest(live: seq<Resting>, stp: bool, o: IncomingOrder, y: Resting)
    requires y in live && MayTrade(stp, o, y)
    ensures var best := BestIn(Prices(live, !o.isBuy), !o.isBuy);
            best.Some? && !Better(y.price, best.value, !o.isBuy)
  {
    assert y.price in Prices(live, !o.isBuy);
  }

  // ----- whole runs -----

  /** The resting order is what is left of this submitted limit order. */
  predicate RestedBy(o: IncomingOrder, x: Resting) {
    && o.kind == Limit
    && x.ref == o.ref && x.price == o.price && x.isBuy == o.isBuy && x.trader == o.trader && x.shares <= o.quantity
  }

  /** The resting order was in the book at the start, or was submitted before the j-th order. */
  ghost predicate KnownBefore(live: seq<Resting>, orders: seq<IncomingOrder>, j: nat, x: Resting)
    requires j <= |orders|
  {
    || (exists y :: y in live && SameTerms(y, x))
    || exists i :: 0 <= i < j && RestedBy(orders[i], x)
  }

  /** The j-th order is the aggressor of this fill, against an order known before it. */
  ghost predicate FilledBy(live: seq<Resting>, stp: bool, orders: seq<IncomingOrder>, j: nat, e: Event)
    requires j < |orders|
  {
    exists x :: KnownBefore(live, orders, j, x) && Joins(stp, orders[j], x, e)
  }

  /** A submission leaves only orders that were there, and its own rest. */
  lemma SubmitMembers(b: BookState, capacity: nat, stp: bool, o: IncomingOrder)
    requires WellFormed(b, capacity)
    ensures forall x :: x in Submit(b, capacity, stp, o).0.live ==> KnownBefore(b.live, [o], 1, x)
  {
    hide Match, Available, WellFormed, NextResting, SameTerms;
    ComesFromItself(b.live);
    if o.quantity > 0 && !Refused(b, stp, o) {
      SubmitWalks(b, capacity, stp, o);
      MatchMembers(b, capacity, stp, o, o.quantity);
      assert [o][0] == o;
    }
  }

  lemma KnownFromStart(live: seq<Resting>, live': seq<Resting>, orders: seq<IncomingOrder>, j: nat, x: Resting)
    requires orders != [] && j < |orders|
    requires forall y :: y in live' ==> KnownBefore(live, [orders[0]], 1, y)
    requires KnownBefore(live', orders[1..], j, x)
    ensures KnownBefore(live, orders, j + 1, x)
  {
    if i :| 0 <= i < j && RestedBy(orders[1..][i], x) {
      assert RestedBy(orders[i + 1], x);
    } else {
      var y :| y in live' && SameTerms(y, x);
      assert KnownBefore(live, [orders[0]], 1, y);
      if z :| z in live && SameTerms(z, y) {
        assert SameTerms(z, x);
      } else {
        assert RestedBy([orders[0]][0], y) && RestedBy(orders[0], x);
      }
    }
  }

  /**
   Over every run from every book, each fill joins the order that was then
   submitted with an order of the other side that was in the book at the start or
   rests from an earlier submission: at that order's own price, within the limit of
   the new one, and with prevention on never two orders of one trader.
   */
  lemma {:induction false} RunFillsAreReal(b: BookState, capacity: nat, stp: bool, orders: seq<IncomingOrder>)
    requires WellFormed(b, capacity)
    ensures forall e :: e in SubmitAll(b, capacity, stp, orders).1 && e.FillEvent?
                        ==> exists j :: 0 <= j < |orders| && FilledBy(b.live, stp, orders, j, e)
    decreases |orders|
  {
    hide Submit, WellFormed, Joins, KnownBefore;
    if orders != [] {
      var (b', events) := Submit(b, capacity, stp, orders[0]);
      CallConservesExactly(b, capacity, stp, orders[0]);
      FillsAreReal(b, capacity, stp, orders[0]);
      SubmitMembers(b, capacity, stp, orders[0]);
      RunFillsAreReal(b', capacity, stp, orders[1..]);
      forall e | e in SubmitAll(b, capacity, stp, orders).1 && e.FillEvent?
        ensures exists j :: 0 <= j < |orders| && FilledBy(b.live, stp, orders, j, e)
      {
        if e in events {
          FilledAtOnce(b.live, stp, orders, e);
        } else {
          var j :| 0 <= j < |orders[1..]| && FilledBy(b'.live, stp, orders[1..], j, e);
          var x :| KnownBefore(b'.live, orders[1..], j, x) && Joins(stp, orders[1..][j], x, e);
          KnownFromStart(b.live, b'.live, orders, j, x);
          assert FilledBy(b.live, stp, orders, j + 1, e);
        }
      }
    }
  }

  lemma FilledAtOnce(live: seq<Resting>, stp: bool, orders: seq<IncomingOrder>, e: Event)
    requires orders != [] && exists x :: x in live && Joins(stp, orders[0], x, e)
    ensures FilledBy(live, stp, orders, 0, e)
  {
    var x :| x in live && Joins(stp, orders[0], x, e);
    assert SameTerms(x, x);
  }

  /**
   The same from the empty book, when no two submitted orders share a reference: of
   the two orders that a fill joins the resting one came first and on the other side,
   the price is its price and within the limit of the other, neither gives more than
   it has, and with prevention on they are not of the same trader, unless of none.
   */
  lemma NoSelfTrade(capacity: nat, stp: bool, orders: seq<IncomingOrder>, e: Event, i: nat, j: nat)
    requires forall k, l :: 0 <= k < l < |orders| ==> orders[k].ref != orders[l].ref
    requires (EmptyBookWellFormed(capacity); e in SubmitAll(EMPTY_BOOK, capacity, stp, orders).1) && e.FillEvent?
    requires i < |orders| && orders[i].ref == e.resting
    requires j < |orders| && orders[j].ref == e.aggressor
    ensures i < j && orders[i].kind == Limit && orders[i].isBuy != orders[j].isBuy
    ensures e.price == orders[i].price
    ensures orders[j].kind == Market || (if orders[j].isBuy then e.price <= orders[j].price
                                         else e.price >= orders[j].price)
    ensures 0 < e.quantity <= orders[i].quantity && e.quantity <= orders[j].quantity
    ensures stp && orders[i].trader == orders[j].trader ==> orders[j].trader == 0
  {
    hide SubmitAll, WellFormed;
    EmptyBookWellFormed(capacity);
    RunFillsAreReal(EMPTY_BOOK, capacity, stp, orders);
    var l :| 0 <= l < |orders| && FilledBy(EMPTY_BOOK.live, stp, orders, l, e);
    var x :| KnownBefore(EMPTY_BOOK.live, orders, l, x) && Joins(stp, orders[l], x, e);
    var k :| 0 <= k < l && RestedBy(orders[k], x);
  }
}
