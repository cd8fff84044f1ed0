/**
 The reference order book: a plain map of live orders and full scans. It is the
 specification the real book is compared with: `StepAgrees` for one operation,
 `RunAgreesExactly` and `RunAgrees` for whole runs, and `HiddenLevelExample` for
 the one way in which what they show can part.
 */
module Reference {
  import opened BookCore
  import opened BookSpec
  import opened ItchTypes
  import opened Options
  import opened Orders
  import opened Words

  datatype RefOrder = RefOrder(price: Price4, shares: Shares, isBuy: bool)

  type RefMap = map<OrderRef, RefOrder>

  // ----- what the reference operations mean -----

  function RefAdd(m: RefMap, ref: OrderRef, price: Price4, shares: Shares, isBuy: bool): (RefMap, bool) {
    if shares == 0 || ref in m then (m, false) else (m[ref := RefOrder(price, shares, isBuy)], true)
  }

  function RefReduce(m: RefMap, ref: OrderRef, delta: Shares): (RefMap, bool) {
    if ref !in m || delta == 0 || delta > m[ref].shares then (m, false)
    else if delta == m[ref].shares then (m - {ref}, true)
    else (m[ref := m[ref].(shares := m[ref].shares - delta)], true)
  }

  function RefDelete(m: RefMap, ref: OrderRef): (RefMap, bool) {
    (m - {ref}, ref in m)
  }

  function RefReplace(m: RefMap, oldRef: OrderRef, newRef: OrderRef, shares: Shares, price: Price4): (RefMap, bool) {
    if oldRef !in m || shares == 0 || (oldRef != newRef && newRef in m) then (m, false)
    else ((m - {oldRef})[newRef := RefOrder(price, shares, m[oldRef].isBuy)], true)
  }

  function RefStep(m: RefMap, op: Op): (RefMap, bool) {
    match op
    case AddOp(ref, price, shares, isBuy) => RefAdd(m, ref, price, shares, isBuy)
    case ExecuteOp(ref, shares) => RefReduce(m, ref, shares)
    case CancelOp(ref, shares) => RefReduce(m, ref, shares)
    case DeleteOp(ref) => RefDelete(m, ref)
    case ReplaceOp(oldRef, newRef, shares, price) => RefReplace(m, oldRef, newRef, shares, price)
  }

  ghost function RefPrices(m: RefMap, isBuy: bool): set<Price4> {
    set ref | ref in m && m[ref].isBuy == isBuy :: m[ref].price
  }

  function Amount(o: RefOrder, p: Price4, isBuy: bool): nat {
    if o.price == p && o.isBuy == isBuy then o.shares else 0
  }

  ghost function TotalOver(m: RefMap, refs: set<OrderRef>, p: Price4, isBuy: bool): nat
    requires refs <= m.Keys
  {
    if refs == {} then 0
    else
      var r :| r in refs;
      Amount(m[r], p, isBuy) + TotalOver(m, refs - {r}, p, isBuy)
  }

  lemma {:induction false} TotalOverPick(m: RefMap, refs: set<OrderRef>, r: OrderRef, p: Price4, isBuy: bool)
    requires refs <= m.Keys && r in refs
    ensures TotalOver(m, refs, p, isBuy) == Amount(m[r], p, isBuy) + TotalOver(m, refs - {r}, p, isBuy)
    decreases refs
  {
    var s :| s in refs && TotalOver(m, refs, p, isBuy) == Amount(m[s], p, isBuy) + TotalOver(m, refs - {s}, p, isBuy);
    if s != r {
      TotalOverPick(m, refs - {s}, r, p, isBuy);
      TotalOverPick(m, refs - {r}, s, p, isBuy);
      assert refs - {s} - {r} == refs - {r} - {s};
    }
  }

  lemma {:induction false} TotalOverAgree(m: RefMap, m': RefMap, refs: set<OrderRef>, p: Price4, isBuy: bool)
    requires refs <= m.Keys && refs <= m'.Keys && forall r :: r in refs ==> m[r] == m'[r]
    ensures TotalOver(m, refs, p, isBuy) == TotalOver(m', refs, p, isBuy)
    decreases refs
  {
    if refs != {} {
      var r :| r in refs;
      TotalOverPick(m, refs, r, p, isBuy);
      TotalOverPick(m', refs, r, p, isBuy);
      TotalOverAgree(m, m', refs - {r}, p, isBuy);
    }
  }

  ghost function RefTotal(m: RefMap, p: Price4, isBuy: bool): nat {
    TotalOver(m, m.Keys, p, isBuy)
  }

  lemma NoneRemain(m: RefMap, total: Shares, p: Price4, isBuy: bool)
    ensures Wrap32(total + TotalOver(m, {}, p, isBuy)) == total
  {
  }

  class ReferenceOrderBook {
    var orders: RefMap

    constructor ()
      ensures orders == map[]
    {
      orders := map[];
    }

    method AddOrder(ref: OrderRef, price: Price4, shares: Shares, isBuy: bool) returns (ok: bool)
      modifies this
      ensures (orders, ok) == RefAdd(old(orders), ref, price, shares, isBuy)
    {
      if shares == 0 || ref in orders {
        return false;
      }
      orders := orders[ref := RefOrder(price, shares, isBuy)];
      return true;
    }

    method ReduceShares(ref: OrderRef, delta: Shares) returns (ok: bool)
      modifies this
      ensures (orders, ok) == RefReduce(old(orders), ref, delta)
    {
      if ref !in orders || delta == 0 || delta > orders[ref].shares {
        return false;
      }
      orders := orders[ref := orders[ref].(shares := orders[ref].shares - delta)];
      assert orders - {ref} == old(orders) - {ref};
      if orders[ref].shares == 0 {
        orders := orders - {ref};
      }
      return true;
    }

    method DeleteOrder(ref: OrderRef) returns (ok: bool)
      modifies this
      ensures (orders, ok) == RefDelete(old(orders), ref)
    {
      ok := ref in orders;
      orders := orders - {ref};
    }

    method ReplaceOrder(oldRef: OrderRef, newRef: OrderRef, newShares: Shares, newPrice: Price4) returns (ok: bool)
      modifies this
      ensures (orders, ok) == RefReplace(old(orders), oldRef, newRef, newShares, newPrice)
    {
      if oldRef !in orders || newShares == 0 {
        return false;
      }
      if oldRef != newRef && newRef in orders {
        return false;
      }
      var isBuy := orders[oldRef].isBuy;
      orders := orders - {oldRef};
      orders := orders[newRef := RefOrder(newPrice, newShares, isBuy)];
      return true;
    }

    /** Scans all orders; the 32-bit sum wraps just as the real book's counters do. */
    method SharesAtPrice(price: Price4, isBuy: bool) returns (total: Shares)
      ensures total == Wrap32(RefTotal(orders, price, isBuy))
    {
      hide Wrap32, TotalOver;
      total := 0;
      var todo := orders.Keys;
      while todo != {}
        invariant todo <= orders.Keys
        invariant Wrap32(total + TotalOver(orders, todo, price, isBuy)) == Wrap32(RefTotal(orders, price, isBuy))
        decreases todo
      {
        var r :| r in todo;
        TotalOverPick(orders, todo, r, price, isBuy);
        var order := orders[r];
        ghost var rest := TotalOver(orders, todo - {r}, price, isBuy);
        if order.price == price && order.isBuy == isBuy {
          WrapStep(total + order.shares, rest, total + order.shares + rest);
          total := Wrap32(total + order.shares);
        }
        todo := todo - {r};
      }
      NoneRemain(orders, total, price, isBuy);
    }

    method BestPrice(isBuy: bool) returns (best: Option<Price4>)
      ensures best == BestIn(RefPrices(orders, isBuy), isBuy)
    {
      best := None;
      var todo := orders.Keys;
      ghost var seen: set<OrderRef> := {};
      while todo != {}
        invariant todo + seen == orders.Keys
        invariant IsBest(set r | r in seen && orders[r].isBuy == isBuy :: orders[r].price, isBuy, best)
        decreases todo
      {
        var r :| r in todo;
        ghost var before := set q | q in seen && orders[q].isBuy == isBuy :: orders[q].price;
        if orders[r].isBuy == isBuy {
          assert (set q | q in seen + {r} && orders[q].isBuy == isBuy :: orders[q].price) == before + {orders[r].price};
          if best.None? || Better(orders[r].price, best.value, isBuy) {
            best := Some(orders[r].price);
          }
        } else {
          assert (set q | q in seen + {r} && orders[q].isBuy == isBuy :: orders[q].price) == before;
        }
        todo, seen := todo - {r}, seen + {r};
      }
      assert seen == orders.Keys;
      assert (set r | r in seen && orders[r].isBuy == isBuy :: orders[r].price) == RefPrices(orders, isBuy);
      BestIsUnique(RefPrices(orders, isBuy), isBuy, best);
    }
  }

  // ----- the real book's live orders as a reference map -----

  function RefOf(x: Resting): RefOrder {
    RefOrder(x.price, x.shares, x.isBuy)
  }

  function MapOf(live: seq<Resting>): RefMap {
    map ref | ref in Refs(live) :: RefOf(Lookup(live, ref).value)
  }

  /** A map with an entry for every live order and no other is the book's map. */
  lemma MapOfIs(live: seq<Resting>, m: RefMap)
    requires DistinctRefs(live)
    requires forall x :: x in live ==> x.ref in m && m[x.ref] == RefOf(x)
    requires forall ref :: ref in m ==> Lookup(live, ref).Some?
    ensures m == MapOf(live)
  {
    forall ref | ref in m
      ensures ref in Refs(live)
    {
      assert Lookup(live, ref).value in live;
    }
  }

  lemma MapOfHas(live: seq<Resting>, ref: OrderRef)
    requires DistinctRefs(live)
    ensures ref in MapOf(live) <==> Lookup(live, ref).Some?
    ensures ref in MapOf(live) ==> MapOf(live)[ref] == RefOf(Lookup(live, ref).value)
  {
    if Lookup(live, ref).Some? {
      assert Lookup(live, ref).value in live;
    }
  }

  lemma MapOfAppend(live: seq<Resting>, x: Resting)
    requires DistinctRefs(live) && Lookup(live, x.ref).None?
    ensures MapOf(live + [x]) == MapOf(live)[x.ref := RefOf(x)]
  {
    var m := MapOf(live)[x.ref := RefOf(x)];
    DistinctAppend(live, x);
    forall y | y in live + [x]
      ensures y.ref in m && m[y.ref] == RefOf(y)
    {
      if y in live {
        MapOfHas(live, y.ref);
        LookupFinds(live, y);
      }
    }
    forall ref | ref in m
      ensures Lookup(live + [x], ref).Some?
    {
      if ref == x.ref {
        assert x in live + [x];
      } else {
        MapOfHas(live, ref);
        assert Lookup(live, ref).value in live + [x];
      }
    }
    MapOfIs(live + [x], m);
  }

  lemma MapOfRemove(live: seq<Resting>, ref: OrderRef)
    requires DistinctRefs(live)
    ensures MapOf(Filter(live, NotRef(ref))) == MapOf(live) - {ref}
  {
    var live' := Filter(live, NotRef(ref));
    var m := MapOf(live) - {ref};
    FilterDistinct(live, NotRef(ref));
    FilterMembers(live, NotRef(ref));
    forall y | y in live'
      ensures y.ref in m && m[y.ref] == RefOf(y)
    {
      MapOfHas(live, y.ref);
      LookupFinds(live, y);
    }
    forall r | r in m
      ensures Lookup(live', r).Some?
    {
      MapOfHas(live, r);
      assert Lookup(live, r).value in live';
    }
    MapOfIs(live', m);
  }

  lemma MapOfWithShares(live: seq<Resting>, x: Resting, n: Shares)
    requires DistinctRefs(live) && x in live
    ensures MapOf(WithShares(live, x.ref, n)) == MapOf(live)[x.ref := RefOrder(x.price, n, x.isBuy)]
  {
    var live' := WithShares(live, x.ref, n);
    var m := MapOf(live)[x.ref := RefOrder(x.price, n, x.isBuy)];
    DistinctWithShares(live, x.ref, n);
    WithSharesMembers(live, x.ref, n);
    forall y | y in live'
      ensures y.ref in m && m[y.ref] == RefOf(y)
    {
      var z :| z in live && y == Left(z, x.ref, n);
      MapOfHas(live, z.ref);
      LookupFinds(live, z);
      if z.ref == x.ref {
        SameRefSameOrder(live, x, z);
      }
    }
    forall r | r in m
      ensures Lookup(live', r).Some?
    {
      MapOfHas(live, r);
      LookupFinds(live, x);
      assert Left(Lookup(live, r).value, x.ref, n) in live';
    }
    MapOfIs(live', m);
  }

  lemma {:induction false} MapOfSize(live: seq<Resting>)
    requires DistinctRefs(live)
    ensures |MapOf(live)| == |live|
  {
    if live == [] {
      assert MapOf(live) == map[];
    } else {
      var init, last := live[..|live| - 1], live[|live| - 1];
      DistinctInit(live);
      MapOfSize(init);
      MapOfAppend(init, last);
      assert live == init + [last];
      MapOfHas(init, last.ref);
    }
  }

  lemma RefTotalGrows(m: RefMap, ref: OrderRef, o: RefOrder, p: Price4, isBuy: bool)
    requires ref !in m
    ensures RefTotal(m[ref := o], p, isBuy) == RefTotal(m, p, isBuy) + Amount(o, p, isBuy)
  {
    var m' := m[ref := o];
    TotalOverPick(m', m'.Keys, ref, p, isBuy);
    assert m'.Keys - {ref} == m.Keys;
    TotalOverAgree(m, m', m.Keys, p, isBuy);
  }

  lemma LevelTotalGrows(live: seq<Resting>, x: Resting, p: Price4, isBuy: bool)
    ensures LevelTotal(live + [x], p, isBuy) == LevelTotal(live, p, isBuy) + Amount(RefOf(x), p, isBuy)
  {
    FilterAppend(live, x, AtLevel(p, isBuy));
    SumKeep(Queue(live, p, isBuy), x, AtLevel(p, isBuy));
  }

  lemma EmptyTotalsAgree(p: Price4, isBuy: bool)
    ensures RefTotal(MapOf([]), p, isBuy) == LevelTotal([], p, isBuy) == 0
  {
    assert MapOf([]) == map[];
  }

  /** Both books see the same total at every price. */
  lemma {:induction false} TotalsAgree(live: seq<Resting>, p: Price4, isBuy: bool)
    requires DistinctRefs(live)
    ensures RefTotal(MapOf(live), p, isBuy) == LevelTotal(live, p, isBuy)
  {
    hide Filter, Sum, MapOf, RefTotal;
    if live == [] {
      EmptyTotalsAgree(p, isBuy);
    } else {
      var init, last := live[..|live| - 1], live[|live| - 1];
      DistinctInit(live);
      TotalsAgree(init, p, isBuy);
      MapOfHas(init, last.ref);
      MapOfAppend(init, last);
      RefTotalGrows(MapOf(init), last.ref, RefOf(last), p, isBuy);
      LevelTotalGrows(init, last, p, isBuy);
      assert live == init + [last];
    }
  }

  lemma PricesAgree(live: seq<Resting>, isBuy: bool)
    requires DistinctRefs(live)
    ensures RefPrices(MapOf(live), isBuy) == Prices(live, isBuy)
  {
    var m := MapOf(live);
    forall x | x in live
      ensures x.ref in m && m[x.ref] == RefOf(x)
    {
      MapOfHas(live, x.ref);
      LookupFinds(live, x);
    }
    forall ref | ref in m
      ensures exists x :: x in live && x.ref == ref && m[ref] == RefOf(x)
    {
      MapOfHas(live, ref);
    }
  }

  // ----- agreement -----

  /**
   One operation: the real book answers as the reference does, except that it
   refuses an addition the reference accepts exactly when it is full; and its
   live orders stay the reference's.
   */
  lemma StepAgrees(b: BookState, capacity: nat, op: Op)
    requires WellFormed(b, capacity)
    ensures var (b', ok) := Step(b, capacity, op);
            var (m', refOk) := RefStep(MapOf(b.live), op);
            && (ok <==> refOk && (op.AddOp? ==> |MapOf(b.live)| < capacity))
            && (ok ==> MapOf(b'.live) == m')
            && (!ok ==> b' == b)
  {
    hide Filter, WithShares, MapOf, DistinctRefs, AllPositive, Lookup;
    MapOfSize(b.live);
    match op
    case AddOp(ref, price, shares, isBuy) =>
      MapOfHas(b.live, ref);
      if Lookup(b.live, ref).None? {
        MapOfAppend(b.live, Resting(ref, price, shares, isBuy, 0));
      }
    case ExecuteOp(ref, shares) => ReduceAgrees(b, capacity, ref, shares);
    case CancelOp(ref, shares) => ReduceAgrees(b, capacity, ref, shares);
    case DeleteOp(ref) =>
      MapOfHas(b.live, ref);
      MapOfRemove(b.live, ref);
    case ReplaceOp(oldRef, newRef, shares, price) => ReplaceAgrees(b, capacity, oldRef, newRef, shares, price);
  }

  lemma ReduceAgrees(b: BookState, capacity: nat, ref: OrderRef, delta: Shares)
    requires WellFormed(b, capacity)
    ensures var (b', ok) := Reduce(b, ref, delta);
            var (m', refOk) := RefReduce(MapOf(b.live), ref, delta);
            ok == refOk && (ok ==> MapOf(b'.live) == m') && (!ok ==> b' == b)
  {
    hide Filter, WithShares, MapOf, Lookup, DistinctRefs;
    MapOfHas(b.live, ref);
    MapOfRemove(b.live, ref);
    if Lookup(b.live, ref).Some? && 0 < delta < Lookup(b.live, ref).value.shares {
      var x := Lookup(b.live, ref).value;
      MapOfWithShares(b.live, x, x.shares - delta);
    }
  }

  lemma ReplaceAgrees(b: BookState, capacity: nat, oldRef: OrderRef, newRef: OrderRef, shares: Shares, price: Price4)
    requires WellFormed(b, capacity)
    ensures var (b', ok) := Replace(b, capacity, oldRef, newRef, shares, price);
            var (m', refOk) := RefReplace(MapOf(b.live), oldRef, newRef, shares, price);
            ok == refOk && (ok ==> MapOf(b'.live) == m') && (!ok ==> b' == b)
  {
    MapOfHas(b.live, oldRef);
    MapOfHas(b.live, newRef);
    ReplaceSucceeds(b, capacity, oldRef, newRef, shares, price);
    if Replace(b, capacity, oldRef, newRef, shares, price).1 {
      var x := Lookup(b.live, oldRef).value;
      var b1 := RemoveFully(b, x);
      RemoveWellFormed(b, capacity, x);
      MapOfRemove(b.live, oldRef);
      MapOfHas(b1.live, newRef);
      MapOfAppend(b1.live, Resting(newRef, price, shares, x.isBuy, 0));
    }
  }

  /** All that either book shows: best prices, order count, and shares at every price. */
  ghost predicate SameObservations(b: BookState, m: RefMap) {
    && |b.live| == |m|
    && (forall isBuy :: b.Best(isBuy) == BestIn(RefPrices(m, isBuy), isBuy))
    && (forall p, isBuy :: SharesAt(b.live, p, isBuy) == Wrap32(RefTotal(m, p, isBuy)))
  }

  lemma ObservationsAgree(b: BookState, capacity: nat)
    requires WellFormed(b, capacity) && BestIsTrue(b)
    ensures SameObservations(b, MapOf(b.live))
  {
    MapOfSize(b.live);
    forall isBuy
      ensures b.Best(isBuy) == BestIn(RefPrices(MapOf(b.live), isBuy), isBuy)
    {
      PricesAgree(b.live, isBuy);
    }
    forall p, isBuy
      ensures SharesAt(b.live, p, isBuy) == Wrap32(RefTotal(MapOf(b.live), p, isBuy))
    {
      TotalsAgree(b.live, p, isBuy);
    }
  }

  /** The real book shows what the reference shows exactly when its cached best prices are true. */
  lemma ObservationsAgreeExactly(b: BookState, capacity: nat)
    requires WellFormed(b, capacity)
    ensures SameObservations(b, MapOf(b.live)) <==> BestIsTrue(b)
  {
    hide WellFormed, MapOf, RefPrices, Prices, BestIn, SharesAt, RefTotal, Wrap32;
    forall isBuy
      ensures RefPrices(MapOf(b.live), isBuy) == Prices(b.live, isBuy)
    {
      LiveRefsDistinct(b, capacity);
      PricesAgree(b.live, isBuy);
    }
    if BestIsTrue(b) {
      ObservationsAgree(b, capacity);
    }
  }

  lemma LiveRefsDistinct(b: BookState, capacity: nat)
    requires WellFormed(b, capacity)
    ensures DistinctRefs(b.live)
  {
  }

  // ----- whole runs -----

  /** The reference with room for a number of orders, or with no limit as in the source. */
  function RefStepIn(m: RefMap, room: Option<nat>, op: Op): (RefMap, bool) {
    if op.AddOp? && room.Some? && |m| >= room.value then (m, false) else RefStep(m, op)
  }

  /** The real book answers and holds what a reference of the same capacity does, on any well-formed book. */
  lemma StepAgreesInRoom(b: BookState, capacity: nat, op: Op)
    requires WellFormed(b, capacity)
    ensures var (b', ok) := Step(b, capacity, op);
            (MapOf(b'.live), ok) == RefStepIn(MapOf(b.live), Some(capacity), op)
  {
    hide MapOf, Step, WellFormed;
    StepAgrees(b, capacity, op);
    RefusalChangesNothing(MapOf(b.live), op);
  }

  lemma RefusalChangesNothing(m: RefMap, op: Op)
    ensures !RefStep(m, op).1 ==> RefStep(m, op).0 == m
  {
    if op.DeleteOp? && op.ref !in m {
      assert m - {op.ref} == m;
    }
  }

  ghost function Run(b: BookState, capacity: nat, ops: seq<Op>): (BookState, seq<bool>)
    decreases |ops|
  {
    if ops == [] then (b, [])
    else
      var (b', ok) := Step(b, capacity, ops[0]);
      var (b'', oks) := Run(b', capacity, ops[1..]);
      (b'', [ok] + oks)
  }

  function RefRun(m: RefMap, room: Option<nat>, ops: seq<Op>): (RefMap, seq<bool>)
    decreases |ops|
  {
    if ops == [] then (m, [])
    else
      var (m', ok) := RefStepIn(m, room, ops[0]);
      var (m'', oks) := RefRun(m', room, ops[1..]);
      (m'', [ok] + oks)
  }

  /** Every run of a well-formed book, whatever its cached bests: the results and the orders are the reference's. */
  lemma {:induction false} RunAnswers(b: BookState, capacity: nat, ops: seq<Op>)
    requires WellFormed(b, capacity)
    ensures var (b', oks) := Run(b, capacity, ops);
            && WellFormed(b', capacity)
            && (MapOf(b'.live), oks) == RefRun(MapOf(b.live), Some(capacity), ops)
    decreases |ops|
  {
    hide WellFormed, MapOf, Step, RefStepIn;
    if ops != [] {
      StepAgreesInRoom(b, capacity, ops[0]);
      StepWellFormed(b, capacity, ops[0]);
      RunAnswers(Step(b, capacity, ops[0]).0, capacity, ops[1..]);
    }
  }

  /** Side by side, the two books give the same results and show the same before, between and after all operations. */
  ghost predicate Alike(b: BookState, capacity: nat, m: RefMap, room: Option<nat>, ops: seq<Op>)
    decreases |ops|
  {
    && SameObservations(b, m)
    && (ops != [] ==>
          var (b', ok) := Step(b, capacity, ops[0]);
          var (m', refOk) := RefStepIn(m, room, ops[0]);
          ok == refOk && Alike(b', capacity, m', room, ops[1..]))
  }

  /** No operation of the run makes a rescan miss the best price. */
  ghost predicate NoneMisses(b: BookState, capacity: nat, ops: seq<Op>)
    decreases |ops|
  {
    ops != [] ==> !StepMisses(b, ops[0]) && NoneMisses(Step(b, capacity, ops[0]).0, capacity, ops[1..])
  }

  /** The unlimited reference never accepts an addition when it already holds `capacity` orders. */
  predicate NeverFull(m: RefMap, capacity: nat, ops: seq<Op>)
    decreases |ops|
  {
    ops != [] ==>
      && (ops[0].AddOp? && RefStep(m, ops[0]).1 ==> |m| < capacity)
      && NeverFull(RefStep(m, ops[0]).0, capacity, ops[1..])
  }

  /**
   Over every run, full books and hidden levels included: the real book and a
   reference of its capacity are alike at every point of the run if and only if no
   operation's rescan misses.
   */
  lemma {:induction false} RunAgreesExactly(b: BookState, capacity: nat, ops: seq<Op>)
    requires WellFormed(b, capacity) && BestIsTrue(b)
    ensures Alike(b, capacity, MapOf(b.live), Some(capacity), ops) <==> NoneMisses(b, capacity, ops)
    decreases |ops|
  {
    hide WellFormed, BestIsTrue, MapOf, Step, RefStepIn, SameObservations, StepMisses;
    ObservationsAgreeExactly(b, capacity);
    if ops != [] {
      var b' := Step(b, capacity, ops[0]).0;
      StepAgreesInRoom(b, capacity, ops[0]);
      StepWellFormed(b, capacity, ops[0]);
      StepKeepsBestExactly(b, capacity, ops[0]);
      ObservationsAgreeExactly(b', capacity);
      if !StepMisses(b, ops[0]) {
        RunAgreesExactly(b', capacity, ops[1..]);
      }
    }
  }

  /**
   Against the source's own, unlimited reference: alike at every point of the run
   if and only if no rescan misses and no addition comes to a full book.
   */
  lemma {:induction false} RunAgrees(b: BookState, capacity: nat, ops: seq<Op>)
    requires WellFormed(b, capacity) && BestIsTrue(b)
    ensures Alike(b, capacity, MapOf(b.live), None, ops)
            <==> NoneMisses(b, capacity, ops) && NeverFull(MapOf(b.live), capacity, ops)
    decreases |ops|
  {
    hide WellFormed, BestIsTrue, MapOf, Step, RefStep, SameObservations, StepMisses;
    ObservationsAgreeExactly(b, capacity);
    if ops != [] {
      var b' := Step(b, capacity, ops[0]).0;
      StepAgrees(b, capacity, ops[0]);
      RefusalChangesNothing(MapOf(b.live), ops[0]);
      StepWellFormed(b, capacity, ops[0]);
      StepKeepsBestExactly(b, capacity, ops[0]);
      ObservationsAgreeExactly(b', capacity);
      if !StepMisses(b, ops[0]) {
        RunAgrees(b', capacity, ops[1..]);
      }
    }
  }

  /** Both sides stay below 2^32 shares before every operation. */
  ghost predicate SmallBefore(b: BookState, capacity: nat, ops: seq<Op>)
    decreases |ops|
  {
    ops != [] ==>
      && (forall isBuy :: SideTotal(b.live, isBuy) < TWO_TO_32)
      && SmallBefore(Step(b, capacity, ops[0]).0, capacity, ops[1..])
  }

  /** While the live shares of each side stay below 2^32, the two books are alike throughout. */
  lemma {:induction false} SmallRunsAgree(b: BookState, capacity: nat, ops: seq<Op>)
    requires WellFormed(b, capacity) && BestIsTrue(b) && SmallBefore(b, capacity, ops)
    ensures NoneMisses(b, capacity, ops)
    ensures Alike(b, capacity, MapOf(b.live), Some(capacity), ops)
    decreases |ops|
  {
    hide WellFormed, BestIsTrue, MapOf, Step, StepMisses, Alike, SideTotal;
    if ops != [] {
      SmallSidesNeverMiss(b, capacity, ops[0]);
      StepWellFormed(b, capacity, ops[0]);
      StepKeepsBestExactly(b, capacity, ops[0]);
      SmallRunsAgree(Step(b, capacity, ops[0]).0, capacity, ops[1..]);
    }
    RunAgreesExactly(b, capacity, ops);
  }

  /** Two orders of 2^31 shares at one price wrap its counter to zero. */
  function HidingAsk(ref: OrderRef): Resting {
    Resting(ref, if ref == 1 then 100 else if ref == 4 then 102 else 101,
            if ref == 2 || ref == 3 then 0x8000_0000 else 5, false, 0)
  }

  function AddAsk(ref: OrderRef): Op {
    AddOp(ref, HidingAsk(ref).price, HidingAsk(ref).shares, false)
  }

  function HidingOps(): seq<Op> {
    [AddAsk(1)] + ([AddAsk(2)] + ([AddAsk(3)] + ([AddAsk(4)] + ([DeleteOp(1)] + []))))
  }

  lemma RunCons(b: BookState, capacity: nat, op: Op, rest: seq<Op>)
    ensures Run(b, capacity, [op] + rest).0 == Run(Step(b, capacity, op).0, capacity, rest).0
  {
    assert ([op] + rest)[1..] == rest;
  }

  lemma HidingRemainder(live: seq<Resting>)
    requires live == [HidingAsk(2), HidingAsk(3), HidingAsk(4)]
    ensures Queue(live, 100, false) == []
    ensures BestIn(Visible(live, false), false) == Some(102)
    ensures BestIn(Prices(live, false), false) == Some(101)
  {
    hide Filter, Sum;
    var a, b, c := HidingAsk(2), HidingAsk(3), HidingAsk(4);
    ThreeOrders(a, b, c, AtLevel(100, false));
    ThreeOrders(a, b, c, AtLevel(101, false));
    ThreeOrders(a, b, c, AtLevel(102, false));
    assert a in live && b in live && c in live;
    assert Prices(live, false) == {101, 102};
    assert SharesAt(live, 101, false) == 0 && SharesAt(live, 102, false) == 5;
    assert Visible(live, false) == {102};
    BestIsUnique({102}, false, Some(102));
    BestIsUnique({101, 102}, false, Some(101));
  }

  /** One more ask behind others with smaller references. */
  lemma AskAdded(b: BookState, ref: OrderRef)
    requires b.bestBid == None && |b.live| < 10 && forall x :: x in b.live ==> x.ref < ref
    ensures Step(b, 10, AddAsk(ref)).0
         == BookState(b.live + [HidingAsk(ref)], None, ImproveBest(b.bestAsk, HidingAsk(ref).price, false))
  {
  }

  lemma HidingState()
    ensures Run(EMPTY_BOOK, 10, HidingOps()).0
         == RemoveFully(BookState([HidingAsk(1), HidingAsk(2), HidingAsk(3), HidingAsk(4)], None, Some(100)),
                        HidingAsk(1))
  {
    hide Step, RemoveFully, Run;
    var a1, a2, a3, a4 := HidingAsk(1), HidingAsk(2), HidingAsk(3), HidingAsk(4);
    var s1 := BookState([a1], None, Some(100));
    var s2 := BookState([a1, a2], None, Some(100));
    var s3 := BookState([a1, a2, a3], None, Some(100));
    var s4 := BookState([a1, a2, a3, a4], None, Some(100));
    assert [] + [a1] == [a1] && [a1] + [a2] == s2.live && s2.live + [a3] == s3.live && s3.live + [a4] == s4.live;
    AskAdded(EMPTY_BOOK, 1);
    AskAdded(s1, 2);
    AskAdded(s2, 3);
    AskAdded(s3, 4);
    var o5 := [DeleteOp(1)] + [];
    var o4 := [AddAsk(4)] + o5;
    var o3 := [AddAsk(3)] + o4;
    var o2 := [AddAsk(2)] + o3;
    RunCons(EMPTY_BOOK, 10, AddAsk(1), o2);
    RunCons(s1, 10, AddAsk(2), o3);
    RunCons(s2, 10, AddAsk(3), o4);
    RunCons(s3, 10, AddAsk(4), o5);
    RunCons(s4, 10, DeleteOp(1), []);
    DeleteFirst(s4, a1);
    NoMoreOps(Step(s4, 10, DeleteOp(1)).0);
  }

  lemma DeleteFirst(b: BookState, x: Resting)
    requires b.live != [] && x == b.live[0] && forall i :: 0 < i < |b.live| ==> b.live[i].ref != x.ref
    ensures Step(b, 10, DeleteOp(x.ref)).0 == RemoveFully(b, x)
  {
    hide RemoveFully;
    assert x in b.live;
    assert Lookup(b.live, x.ref) == Some(x);
  }

  lemma NoMoreOps(b: BookState)
    ensures Run(b, 10, []).0 == b
  {
  }

  /** When the best ask then empties, the rescan passes over 101 and the two books part. */
  lemma HiddenLevelExample()
    ensures Run(EMPTY_BOOK, 10, HidingOps()).0.bestAsk == Some(102)
    ensures BestIn(Prices(Run(EMPTY_BOOK, 10, HidingOps()).0.live, false), false) == Some(101)
  {
    hide Filter, Visible, Run, Sum, Queue;
    var a1, a2, a3, a4 := HidingAsk(1), HidingAsk(2), HidingAsk(3), HidingAsk(4);
    HidingState();
    var rest := [a2, a3, a4];
    FirstDropped(a1, rest);
    HidingRemainder(rest);
    assert [a1] + rest == [a1, a2, a3, a4];
  }

  lemma FirstDropped(x: Resting, rest: seq<Resting>)
    requires forall y :: y in rest ==> y.ref != x.ref
    ensures Filter([x] + rest, NotRef(x.ref)) == rest
  {
    FilterConcat([x], rest, NotRef(x.ref));
    FilterAll(rest, NotRef(x.ref));
    assert [x][..0] == [];
    assert Filter([x], NotRef(x.ref)) == [];
  }
}
