/**
 What the order book means: its live orders in arrival order together with the
 two cached best prices, and what each operation does to them. The 32-bit level
 totals wrap, and the rescan for a new best price looks at the wrapped totals;
 both are kept here exactly as the code has them.
 */
module BookSpec {
  import opened ItchTypes
  import opened Options
  import opened Orders
  import opened Words

  datatype BookState = BookState(live: seq<Resting>, bestBid: Option<Price4>, bestAsk: Option<Price4>) {
    function Best(isBuy: bool): Option<Price4> {
      if isBuy then bestBid else bestAsk
    }

    function WithBest(isBuy: bool, best: Option<Price4>): BookState {
      if isBuy then this.(bestBid := best) else this.(bestAsk := best)
    }
  }

  const EMPTY_BOOK: BookState := BookState([], None, None)

  /** `p` is a strictly better price than `q` on the given side. */
  predicate Better(p: Price4, q: Price4, isBuy: bool) {
    if isBuy then p > q else p < q
  }

  function Queue(live: seq<Resting>, p: Price4, isBuy: bool): seq<Resting> {
    Filter(live, AtLevel(p, isBuy))
  }

  function LevelTotal(live: seq<Resting>, p: Price4, isBuy: bool): nat {
    Sum(Queue(live, p, isBuy))
  }

  /** The 32-bit counter that the level keeps. */
  function SharesAt(live: seq<Resting>, p: Price4, isBuy: bool): Shares {
    Wrap32(LevelTotal(live, p, isBuy))
  }

  function SideTotal(live: seq<Resting>, isBuy: bool): nat {
    Sum(Filter(live, OnSide(isBuy)))
  }

  /** The prices of one side that have live orders. */
  ghost function Prices(live: seq<Resting>, isBuy: bool): set<Price4> {
    set x | x in live && x.isBuy == isBuy :: x.price
  }

  /** The prices of one side that a scan over level counters can see. */
  ghost function Visible(live: seq<Resting>, isBuy: bool): set<Price4> {
    set p | p in Prices(live, isBuy) && SharesAt(live, p, isBuy) != 0
  }

  ghost function WorseThan(prices: set<Price4>, p: Price4, isBuy: bool): set<Price4> {
    set q | q in prices && Better(p, q, isBuy)
  }

  ghost predicate IsBest(prices: set<Price4>, isBuy: bool, best: Option<Price4>) {
    match best
    case None => prices == {}
    case Some(p) => p in prices && forall q :: q in prices ==> !Better(q, p, isBuy)
  }

  lemma {:induction false} SomeBest(prices: set<Price4>, isBuy: bool) returns (best: Option<Price4>)
    ensures IsBest(prices, isBuy, best)
    decreases |prices|
  {
    if prices == {} {
      return None;
    }
    var p :| p in prices;
    var rest := SomeBest(prices - {p}, isBuy);
    assert prices == (prices - {p}) + {p};
    if rest.None? || Better(p, rest.value, isBuy) {
      return Some(p);
    }
    return rest;
  }

  ghost function BestIn(prices: set<Price4>, isBuy: bool): (best: Option<Price4>)
    ensures IsBest(prices, isBuy, best)
  {
    assert exists b :: IsBest(prices, isBuy, b) by {
      var b := SomeBest(prices, isBuy);
    }
    var b :| IsBest(prices, isBuy, b);
    b
  }

  lemma BestIsUnique(prices: set<Price4>, isBuy: bool, best: Option<Price4>)
    requires IsBest(prices, isBuy, best)
    ensures best == BestIn(prices, isBuy)
  {
  }

  /** The next level that a read-only walk visits after price `p`. */
  ghost function NextVisible(live: seq<Resting>, p: Price4, isBuy: bool): Option<Price4> {
    BestIn(WorseThan(Visible(live, isBuy), p, isBuy), isBuy)
  }

  // ----- operations -----

  function ImproveBest(best: Option<Price4>, p: Price4, isBuy: bool): Option<Price4> {
    if best.None? || Better(p, best.value, isBuy) then Some(p) else best
  }

  /** A book with room for `capacity` orders refuses zero shares, a live reference, and a further order once full. */
  function Add(b: BookState, capacity: nat, x: Resting): (BookState, bool) {
    if x.shares == 0 || Lookup(b.live, x.ref).Some? || |b.live| >= capacity then (b, false)
    else (b.(live := b.live + [x]).WithBest(x.isBuy, ImproveBest(b.Best(x.isBuy), x.price, x.isBuy)), true)
  }

  /** The cached best is rescanned exactly when the level it names loses its last order. */
  ghost function RemoveFully(b: BookState, x: Resting): BookState {
    var live := Filter(b.live, NotRef(x.ref));
    var b' := b.(live := live);
    if Queue(live, x.price, x.isBuy) == [] && b.Best(x.isBuy) == Some(x.price) then
      b'.WithBest(x.isBuy, BestIn(Visible(live, x.isBuy), x.isBuy))
    else b'
  }

  ghost function Reduce(b: BookState, ref: OrderRef, delta: Shares): (BookState, bool) {
    match Lookup(b.live, ref)
    case None => (b, false)
    case Some(x) =>
      if delta == 0 || delta > x.shares then (b, false)
      else if delta == x.shares then (RemoveFully(b, x), true)
      else (b.(live := WithShares(b.live, ref, x.shares - delta)), true)
  }

  ghost function Delete(b: BookState, ref: OrderRef): (BookState, bool) {
    match Lookup(b.live, ref)
    case None => (b, false)
    case Some(x) => (RemoveFully(b, x), true)
  }

  /** The replacement keeps the side, loses the trader and queues behind everyone else. */
  ghost function Replace(b: BookState, capacity: nat, oldRef: OrderRef, newRef: OrderRef, shares: Shares,
                         price: Price4): (BookState, bool)
  {
    match Lookup(b.live, oldRef)
    case None => (b, false)
    case Some(x) =>
      if shares == 0 || (oldRef != newRef && Lookup(b.live, newRef).Some?) then (b, false)
      else Add(RemoveFully(b, x), capacity, Resting(newRef, price, shares, x.isBuy, 0))
  }

  datatype Op =
    | AddOp(ref: OrderRef, price: Price4, shares: Shares, isBuy: bool)
    | ExecuteOp(ref: OrderRef, shares: Shares)
    | CancelOp(ref: OrderRef, shares: Shares)
    | DeleteOp(ref: OrderRef)
    | ReplaceOp(oldRef: OrderRef, newRef: OrderRef, shares: Shares, price: Price4)

  ghost function Step(b: BookState, capacity: nat, op: Op): (BookState, bool) {
    match op
    case AddOp(ref, price, shares, isBuy) => Add(b, capacity, Resting(ref, price, shares, isBuy, 0))
    case ExecuteOp(ref, shares) => Reduce(b, ref, shares)
    case CancelOp(ref, shares) => Reduce(b, ref, shares)
    case DeleteOp(ref) => Delete(b, ref)
    case ReplaceOp(oldRef, newRef, shares, price) => Replace(b, capacity, oldRef, newRef, shares, price)
  }

  // ----- what every operation keeps -----

  /** Live references are distinct, live orders have shares, and a cached best names a level with orders. */
  ghost predicate WellFormed(b: BookState, capacity: nat) {
    && DistinctRefs(b.live)
    && AllPositive(b.live)
    && |b.live| <= capacity
    && forall isBuy :: b.Best(isBuy).Some? ==> b.Best(isBuy).value in Prices(b.live, isBuy)
  }

  lemma EmptyBookWellFormed(capacity: nat)
    ensures WellFormed(EMPTY_BOOK, capacity) && BestIsTrue(EMPTY_BOOK)
  {
    assert Prices([], true) == {} && Prices([], false) == {};
  }

  lemma QueueEmptyIffNoPrice(live: seq<Resting>, p: Price4, isBuy: bool)
    ensures Queue(live, p, isBuy) == [] <==> p !in Prices(live, isBuy)
  {
    FilterMembers(live, AtLevel(p, isBuy));
    if p in Prices(live, isBuy) {
      var x :| x in live && x.isBuy == isBuy && x.price == p;
      assert x in Queue(live, p, isBuy);
    }
    var q := Queue(live, p, isBuy);
    assert q != [] ==> q[0] in q;
  }

  lemma DistinctWithShares(live: seq<Resting>, ref: OrderRef, n: Shares)
    requires DistinctRefs(live)
    ensures DistinctRefs(WithShares(live, ref, n))
  {
    var live' := WithShares(live, ref, n);
    forall i: nat, j: nat | i < j < |live'|
      ensures RefsDiffer(live', i, j)
    {
      RefsDifferAt(live, i, j);
      WithSharesAt(live, ref, n, i);
      WithSharesAt(live, ref, n, j);
    }
  }

  lemma AddWellFormed(b: BookState, capacity: nat, x: Resting)
    requires WellFormed(b, capacity)
    ensures WellFormed(Add(b, capacity, x).0, capacity)
  {
    var (b', ok) := Add(b, capacity, x);
    if ok {
      assert x in b'.live;
      DistinctAppend(b.live, x);
      forall isBuy | b'.Best(isBuy).Some?
        ensures b'.Best(isBuy).value in Prices(b'.live, isBuy)
      {
        if b'.Best(isBuy) == b.Best(isBuy) {
          var y :| y in b.live && y.isBuy == isBuy && y.price == b.Best(isBuy).value;
          assert y in b'.live;
        }
      }
    }
  }

  /** Removing an order leaves every other price as it was. */
  lemma PricesAfterRemoval(live: seq<Resting>, x: Resting)
    requires DistinctRefs(live) && x in live
    ensures var live' := Filter(live, NotRef(x.ref));
            && DistinctRefs(live')
            && |live'| == |live| - 1
            && (forall y :: y in live' <==> y in live && y != x)
            && Prices(live', !x.isBuy) == Prices(live, !x.isBuy)
            && Prices(live', x.isBuy)
               == (if Queue(live', x.price, x.isBuy) == [] then Prices(live, x.isBuy) - {x.price}
                   else Prices(live, x.isBuy))
  {
    var live' := Filter(live, NotRef(x.ref));
    FilterDistinct(live, NotRef(x.ref));
    FilterMembers(live, NotRef(x.ref));
    SumRemove(live, x);
    forall y | y in live && y != x
      ensures y in live'
    {
      if y.ref == x.ref {
        SameRefSameOrder(live, x, y);
      }
    }
    QueueEmptyIffNoPrice(live', x.price, x.isBuy);
    assert forall isBuy, q :: q in Prices(live, isBuy) && q !in Prices(live', isBuy) ==>
                                q == x.price && isBuy == x.isBuy;
  }

  lemma RemoveWellFormed(b: BookState, capacity: nat, x: Resting)
    requires WellFormed(b, capacity) && x in b.live
    ensures WellFormed(RemoveFully(b, x), capacity)
    ensures |RemoveFully(b, x).live| == |b.live| - 1
  {
    PricesAfterRemoval(b.live, x);
    var b' := RemoveFully(b, x);
    assert b'.live == Filter(b.live, NotRef(x.ref));
    forall isBuy | b'.Best(isBuy).Some?
      ensures b'.Best(isBuy).value in Prices(b'.live, isBuy)
    {
    }
  }

  lemma PricesWithShares(live: seq<Resting>, ref: OrderRef, n: Shares)
    ensures forall isBuy :: Prices(WithShares(live, ref, n), isBuy) == Prices(live, isBuy)
  {
    var live' := WithShares(live, ref, n);
    WithSharesMembers(live, ref, n);
    forall isBuy
      ensures Prices(live', isBuy) == Prices(live, isBuy)
    {
      forall p | p in Prices(live, isBuy)
        ensures p in Prices(live', isBuy)
      {
        var x :| x in live && x.isBuy == isBuy && x.price == p;
        assert Left(x, ref, n) in live';
      }
    }
  }

  /** An order reduced to no shares and then removed is removed just as if it had kept them. */
  lemma RemoveAfterZero(b: BookState, x: Resting)
    requires DistinctRefs(b.live) && x in b.live
    ensures x.(shares := 0) in WithShares(b.live, x.ref, 0)
    ensures RemoveFully(b.(live := WithShares(b.live, x.ref, 0)), x.(shares := 0)) == RemoveFully(b, x)
  {
    FilterWithShares(b.live, x.ref, 0, NotRef(x.ref));
    FilterMembers(b.live, NotRef(x.ref));
    WithSharesAbsent(Filter(b.live, NotRef(x.ref)), x.ref, 0);
    WithSharesMembers(b.live, x.ref, 0);
    assert Left(x, x.ref, 0) in WithShares(b.live, x.ref, 0);
  }

  lemma ReduceWellFormed(b: BookState, capacity: nat, ref: OrderRef, delta: Shares)
    requires WellFormed(b, capacity)
    ensures WellFormed(Reduce(b, ref, delta).0, capacity)
  {
    var x := Lookup(b.live, ref);
    if x.Some? && 0 < delta <= x.value.shares {
      if delta == x.value.shares {
        RemoveWellFormed(b, capacity, x.value);
      } else {
        PricesWithShares(b.live, ref, x.value.shares - delta);
        DistinctWithShares(b.live, ref, x.value.shares - delta);
        WithSharesMembers(b.live, ref, x.value.shares - delta);
      }
    }
  }

  lemma StepWellFormed(b: BookState, capacity: nat, op: Op)
    requires WellFormed(b, capacity)
    ensures WellFormed(Step(b, capacity, op).0, capacity)
  {
    match op
    case AddOp(ref, price, shares, isBuy) => AddWellFormed(b, capacity, Resting(ref, price, shares, isBuy, 0));
    case ExecuteOp(ref, shares) => ReduceWellFormed(b, capacity, ref, shares);
    case CancelOp(ref, shares) => ReduceWellFormed(b, capacity, ref, shares);
    case DeleteOp(ref) =>
      if Lookup(b.live, ref).Some? {
        RemoveWellFormed(b, capacity, Lookup(b.live, ref).value);
      }
    case ReplaceOp(oldRef, newRef, shares, price) =>
      if Lookup(b.live, oldRef).Some? {
        var x := Lookup(b.live, oldRef).value;
        RemoveWellFormed(b, capacity, x);
        AddWellFormed(RemoveFully(b, x), capacity, Resting(newRef, price, shares, x.isBuy, 0));
      }
  }

  /** A replacement that passes its checks always succeeds: the order it removed left room and freed its reference. */
  lemma ReplaceSucceeds(b: BookState, capacity: nat, oldRef: OrderRef, newRef: OrderRef, shares: Shares, price: Price4)
    requires WellFormed(b, capacity)
    ensures Replace(b, capacity, oldRef, newRef, shares, price).1 <==>
            Lookup(b.live, oldRef).Some? && shares > 0 && (newRef == oldRef || Lookup(b.live, newRef).None?)
  {
    if Lookup(b.live, oldRef).Some? {
      var x := Lookup(b.live, oldRef).value;
      RemoveWellFormed(b, capacity, x);
      FilterMembers(b.live, NotRef(oldRef));
    }
  }

  // ----- the order under each reference -----

  /**
   An addition is refused exactly for zero shares, a live reference or a full
   book, and then changes nothing. Otherwise the order is stored as it came, its
   trader included, and no other reference is touched.
   */
  lemma AddStores(b: BookState, capacity: nat, x: Resting, r: OrderRef)
    ensures var (b', ok) := Add(b, capacity, x);
            && (ok <==> x.shares > 0 && Lookup(b.live, x.ref).None? && |b.live| < capacity)
            && (!ok ==> b' == b)
            && Lookup(b'.live, r) == (if ok && r == x.ref then Some(x) else Lookup(b.live, r))
  {
    LookupAppended(b.live, x, r);
  }

  /**
   What stands under a reference `r` after an accepted operation. Orders keep
   price, side and trader for life; messages bring orders without a trader, and a
   replacement takes over only the side.
   */
  ghost predicate OrderAfter(live: seq<Resting>, op: Op, r: OrderRef, now: Option<Resting>) {
    var was := Lookup(live, r);
    match op
    case AddOp(ref, price, shares, isBuy) =>
      now == if r == ref then Some(Resting(ref, price, shares, isBuy, 0)) else was
    case ExecuteOp(ref, shares) => if r == ref then LeftBy(was, shares, now) else now == was
    case CancelOp(ref, shares) => if r == ref then LeftBy(was, shares, now) else now == was
    case DeleteOp(ref) => now == if r == ref then None else was
    case ReplaceOp(oldRef, newRef, shares, price) =>
      var out := Lookup(live, oldRef);
      out.Some? &&
      now == if r == newRef then Some(Resting(newRef, price, shares, out.value.isBuy, 0))
             else if r == oldRef then None else was
  }

  /** The order lost just these shares, and is gone if it had no more. */
  ghost predicate LeftBy(was: Option<Resting>, delta: Shares, now: Option<Resting>) {
    && was.Some? && 0 < delta <= was.value.shares
    && now == if delta == was.value.shares then None else Some(was.value.(shares := was.value.shares - delta))
  }

  lemma StepOrders(b: BookState, capacity: nat, op: Op, r: OrderRef)
    requires WellFormed(b, capacity)
    ensures var (b', ok) := Step(b, capacity, op);
            if ok then OrderAfter(b.live, op, r, Lookup(b'.live, r)) else b' == b
  {
    hide Filter, WithShares, Lookup, WellFormed;
    match op
    case AddOp(ref, price, shares, isBuy) => AddStores(b, capacity, Resting(ref, price, shares, isBuy, 0), r);
    case ExecuteOp(ref, shares) => ReduceOrders(b, ref, shares, r);
    case CancelOp(ref, shares) => ReduceOrders(b, ref, shares, r);
    case DeleteOp(ref) => LookupWithout(b.live, ref, r);
    case ReplaceOp(oldRef, newRef, shares, price) =>
      ReplaceSucceeds(b, capacity, oldRef, newRef, shares, price);
      if Lookup(b.live, oldRef).Some? {
        var x := Lookup(b.live, oldRef).value;
        LookupWithout(b.live, oldRef, r);
        AddStores(RemoveFully(b, x), capacity, Resting(newRef, price, shares, x.isBuy, 0), r);
      }
  }

  /** A reduction is refused exactly for an unknown reference, no shares, or more than the order has. */
  lemma ReduceOrders(b: BookState, ref: OrderRef, delta: Shares, r: OrderRef)
    ensures var (b', ok) := Reduce(b, ref, delta);
            && (ok <==> Lookup(b.live, ref).Some? && 0 < delta <= Lookup(b.live, ref).value.shares)
            && (if !ok then b' == b
                else if r == ref then LeftBy(Lookup(b.live, r), delta, Lookup(b'.live, r))
                else Lookup(b'.live, r) == Lookup(b.live, r))
  {
    hide Filter, WithShares;
    LookupWithout(b.live, ref, r);
    if Lookup(b.live, ref).Some? && delta < Lookup(b.live, ref).value.shares {
      LookupWithShares(b.live, ref, Lookup(b.live, ref).value.shares - delta, r);
    }
  }

  // ----- time priority -----

  /** What an accepted operation makes of one queue. */
  ghost function QueueAfter(live: seq<Resting>, q: seq<Resting>, op: Op, t: Test): seq<Resting> {
    match op
    case AddOp(ref, price, shares, isBuy) => q + Keep(Resting(ref, price, shares, isBuy, 0), t)
    case ExecuteOp(ref, shares) => QueueAfterReduction(live, q, ref, shares)
    case CancelOp(ref, shares) => QueueAfterReduction(live, q, ref, shares)
    case DeleteOp(ref) => Filter(q, NotRef(ref))
    case ReplaceOp(oldRef, newRef, shares, price) =>
      match Lookup(live, oldRef) {
        case None => q
        case Some(x) => Filter(q, NotRef(oldRef)) + Keep(Resting(newRef, price, shares, x.isBuy, 0), t)
      }
  }

  ghost function QueueAfterReduction(live: seq<Resting>, q: seq<Resting>, ref: OrderRef, delta: Shares): seq<Resting> {
    match Lookup(live, ref)
    case None => q
    case Some(x) => if delta >= x.shares then Filter(q, NotRef(ref)) else WithShares(q, ref, x.shares - delta)
  }

  /**
   Every queue stays in time order: an addition goes to the back, a partial
   execution or cancellation keeps its place, a removal closes the gap, and a
   replacement goes to the back even at its old price.
   */
  lemma TimePriority(b: BookState, capacity: nat, op: Op, p: Price4, isBuy: bool)
    requires WellFormed(b, capacity)
    ensures var (b', ok) := Step(b, capacity, op);
            Queue(b'.live, p, isBuy)
            == (if ok then QueueAfter(b.live, Queue(b.live, p, isBuy), op, AtLevel(p, isBuy))
                else Queue(b.live, p, isBuy))
  {
    hide Filter, Keep, WithShares, Lookup, WellFormed;
    var t := AtLevel(p, isBuy);
    match op
    case AddOp(ref, price, shares, side) =>
      FilterAppend(b.live, Resting(ref, price, shares, side, 0), t);
    case ExecuteOp(ref, shares) =>
      ReductionKeepsPlace(b, ref, shares, t);
    case CancelOp(ref, shares) =>
      ReductionKeepsPlace(b, ref, shares, t);
    case DeleteOp(ref) =>
      FilterCommutes(b.live, NotRef(ref), t);
    case ReplaceOp(oldRef, newRef, shares, price) =>
      if Lookup(b.live, oldRef).Some? {
        var x := Lookup(b.live, oldRef).value;
        ReplaceSucceeds(b, capacity, oldRef, newRef, shares, price);
        FilterCommutes(b.live, NotRef(oldRef), t);
        FilterAppend(Filter(b.live, NotRef(oldRef)), Resting(newRef, price, shares, x.isBuy, 0), t);
      }
  }

  lemma ReductionKeepsPlace(b: BookState, ref: OrderRef, delta: Shares, t: Test)
    ensures var (b', ok) := Reduce(b, ref, delta);
            Filter(b'.live, t)
              == (if ok then QueueAfterReduction(b.live, Filter(b.live, t), ref, delta) else Filter(b.live, t))
  {
    hide Filter, WithShares;
    if Lookup(b.live, ref).Some? {
      var x := Lookup(b.live, ref).value;
      FilterCommutes(b.live, NotRef(ref), t);
      if delta < x.shares {
        FilterWithShares(b.live, ref, x.shares - delta, t);
      }
    }
  }

  // ----- when the cached best prices are the true ones -----

  ghost predicate BestIsTrue(b: BookState) {
    forall isBuy :: b.Best(isBuy) == BestIn(Prices(b.live, isBuy), isBuy)
  }

  /** The cached prices are true exactly when the bid is the highest price bid, and the ask the lowest price asked. */
  lemma TrueBestsAreExtremes(b: BookState)
    ensures BestIsTrue(b) <==>
            && (match b.bestBid
                case None => forall x :: x in b.live ==> !x.isBuy
                case Some(p) =>
                  && (exists x :: x in b.live && x.isBuy && x.price == p)
                  && forall x :: x in b.live && x.isBuy ==> x.price <= p)
            && (match b.bestAsk
                case None => forall x :: x in b.live ==> x.isBuy
                case Some(p) =>
                  && (exists x :: x in b.live && !x.isBuy && x.price == p)
                  && forall x :: x in b.live && !x.isBuy ==> x.price >= p)
  {
    BestExactly(b.live, true, b.bestBid);
    BestExactly(b.live, false, b.bestAsk);
    assert b.Best(true) == b.bestBid && b.Best(false) == b.bestAsk;
  }

  lemma BestExactly(live: seq<Resting>, isBuy: bool, best: Option<Price4>)
    ensures best == BestIn(Prices(live, isBuy), isBuy) <==>
            match best
            case None => forall x :: x in live ==> x.isBuy != isBuy
            case Some(p) =>
              && (exists x :: x in live && x.isBuy == isBuy && x.price == p)
              && forall x :: x in live && x.isBuy == isBuy ==> if isBuy then x.price <= p else x.price >= p
  {
    var prices := Prices(live, isBuy);
    if IsBest(prices, isBuy, best) {
      BestIsUnique(prices, isBuy, best);
    }
    forall x | x in live && x.isBuy == isBuy
      ensures x.price in prices
    {
    }
  }

  /** No level with live orders has a counter that wrapped to zero. */
  ghost predicate NoHiddenLevel(live: seq<Resting>, isBuy: bool) {
    forall p :: p in Prices(live, isBuy) ==> SharesAt(live, p, isBuy) != 0
  }

  /** A rescan finds the true best exactly when that level's counter did not wrap to zero. */
  lemma RescanExact(live: seq<Resting>, isBuy: bool)
    ensures var best := BestIn(Prices(live, isBuy), isBuy);
            BestIn(Visible(live, isBuy), isBuy) == best
            <==> (best.Some? ==> SharesAt(live, best.value, isBuy) != 0)
  {
    var best := BestIn(Prices(live, isBuy), isBuy);
    if best.Some? && SharesAt(live, best.value, isBuy) != 0 {
      assert best.value in Visible(live, isBuy);
      BestIsUnique(Visible(live, isBuy), isBuy, best);
    } else if best.None? {
      assert Visible(live, isBuy) == {};
    }
  }

  lemma NoHiddenLevelMeansAllVisible(live: seq<Resting>, isBuy: bool)
    requires NoHiddenLevel(live, isBuy)
    ensures Visible(live, isBuy) == Prices(live, isBuy)
  {
  }

  /** While a side's live shares stay below 2^32 no counter wraps, so no level hides. */
  lemma SmallSideHidesNothing(live: seq<Resting>, isBuy: bool)
    requires AllPositive(live)
    requires SideTotal(live, isBuy) < TWO_TO_32
    ensures NoHiddenLevel(live, isBuy)
    ensures forall p :: LevelTotal(live, p, isBuy) <= SideTotal(live, isBuy)
    ensures forall p :: SharesAt(live, p, isBuy) == LevelTotal(live, p, isBuy)
  {
    hide Filter, Sum;
    forall p: Price4
      ensures LevelTotal(live, p, isBuy) <= SideTotal(live, isBuy)
      ensures SharesAt(live, p, isBuy) == LevelTotal(live, p, isBuy)
    {
      FilterStronger(live, OnSide(isBuy), AtLevel(p, isBuy));
      SumOfFilter(Filter(live, OnSide(isBuy)), AtLevel(p, isBuy));
    }
    forall p | p in Prices(live, isBuy)
      ensures SharesAt(live, p, isBuy) != 0
    {
      QueueEmptyIffNoPrice(live, p, isBuy);
      FilterMembers(live, AtLevel(p, isBuy));
      SumPositive(Queue(live, p, isBuy));
    }
  }

  lemma AddKeepsBest(b: BookState, capacity: nat, x: Resting)
    requires BestIsTrue(b)
    ensures BestIsTrue(Add(b, capacity, x).0)
  {
    var (b', ok) := Add(b, capacity, x);
    if ok {
      assert forall y :: y in b'.live <==> y in b.live || y == x;
      forall isBuy
        ensures b'.Best(isBuy) == BestIn(Prices(b'.live, isBuy), isBuy)
      {
        if isBuy == x.isBuy {
          assert Prices(b'.live, isBuy) == Prices(b.live, isBuy) + {x.price};
        } else {
          assert Prices(b'.live, isBuy) == Prices(b.live, isBuy);
        }
        BestIsUnique(Prices(b'.live, isBuy), isBuy, b'.Best(isBuy));
      }
    }
  }

  /**
   When one order is removed, the cache stays true exactly when no rescan was
   needed or the rescan could see the level that is now best.
   */
  lemma RemoveKeepsBestExactly(b: BookState, capacity: nat, x: Resting)
    requires WellFormed(b, capacity) && BestIsTrue(b) && x in b.live
    ensures var b' := RemoveFully(b, x);
            var best := BestIn(Prices(b'.live, x.isBuy), x.isBuy);
            BestIsTrue(b') <==>
              (x.price in Prices(b'.live, x.isBuy) || b.Best(x.isBuy) != Some(x.price) || best.None?
               || SharesAt(b'.live, best.value, x.isBuy) != 0)
  {
    hide Filter, Queue, SharesAt, DistinctRefs, AllPositive;
    PricesAfterRemoval(b.live, x);
    var b' := RemoveFully(b, x);
    QueueEmptyIffNoPrice(b'.live, x.price, x.isBuy);
    RescanExact(b'.live, x.isBuy);
    assert b'.Best(!x.isBuy) == BestIn(Prices(b'.live, !x.isBuy), !x.isBuy);
    if Queue(b'.live, x.price, x.isBuy) != [] || b.Best(x.isBuy) != Some(x.price) {
      BestIsUnique(Prices(b'.live, x.isBuy), x.isBuy, b'.Best(x.isBuy));
    }
  }

  // ----- exactly when an operation leaves a cached best false -----

  /**
   Removing `x` needs a rescan, and the rescan cannot see the level that is now
   best because its counter is zero.
   */
  ghost predicate RemovalMisses(b: BookState, x: Resting) {
    var live' := Filter(b.live, NotRef(x.ref));
    var best := BestIn(Prices(live', x.isBuy), x.isBuy);
    && b.Best(x.isBuy) == Some(x.price) && Queue(live', x.price, x.isBuy) == []
    && best.Some? && SharesAt(live', best.value, x.isBuy) == 0
  }

  ghost predicate ReductionMisses(b: BookState, ref: OrderRef, delta: Shares) {
    var x := Lookup(b.live, ref);
    x.Some? && delta == x.value.shares && RemovalMisses(b, x.value)
  }

  /** The replacement is accepted, its removal misses, and the new price does not make up for it. */
  ghost predicate ReplacementMisses(b: BookState, oldRef: OrderRef, newRef: OrderRef, shares: Shares, price: Price4) {
    var x := Lookup(b.live, oldRef);
    && x.Some? && shares > 0 && (newRef == oldRef || Lookup(b.live, newRef).None?)
    && RemovalMisses(b, x.value)
    && Better(BestIn(Prices(Filter(b.live, NotRef(oldRef)), x.value.isBuy), x.value.isBuy).value, price, x.value.isBuy)
  }

  ghost predicate StepMisses(b: BookState, op: Op) {
    match op
    case AddOp(_, _, _, _) => false
    case ExecuteOp(ref, shares) => ReductionMisses(b, ref, shares)
    case CancelOp(ref, shares) => ReductionMisses(b, ref, shares)
    case DeleteOp(ref) => Lookup(b.live, ref).Some? && RemovalMisses(b, Lookup(b.live, ref).value)
    case ReplaceOp(oldRef, newRef, shares, price) => ReplacementMisses(b, oldRef, newRef, shares, price)
  }

  lemma RemovalExact(b: BookState, capacity: nat, x: Resting)
    requires WellFormed(b, capacity) && BestIsTrue(b) && x in b.live
    ensures BestIsTrue(RemoveFully(b, x)) <==> !RemovalMisses(b, x)
  {
    hide Filter, WellFormed, BestIsTrue;
    RemoveKeepsBestExactly(b, capacity, x);
    QueueEmptyIffNoPrice(Filter(b.live, NotRef(x.ref)), x.price, x.isBuy);
  }

  lemma ReductionExact(b: BookState, capacity: nat, ref: OrderRef, delta: Shares)
    requires WellFormed(b, capacity) && BestIsTrue(b)
    ensures BestIsTrue(Reduce(b, ref, delta).0) <==> !ReductionMisses(b, ref, delta)
  {
    hide Filter, WellFormed, RemovalMisses, RemoveFully, WithShares;
    var x := Lookup(b.live, ref);
    PositiveShares(b, capacity);
    if x.Some? && 0 < delta <= x.value.shares {
      if delta == x.value.shares {
        RemovalExact(b, capacity, x.value);
      } else {
        PricesWithShares(b.live, ref, x.value.shares - delta);
      }
    }
  }

  lemma PositiveShares(b: BookState, capacity: nat)
    requires WellFormed(b, capacity)
    ensures AllPositive(b.live)
  {
  }

  /** A best price that a rescan missed comes right again exactly when a price no worse than the true one is added. */
  lemma AddAfterMiss(b: BookState, x: Resting, y: Resting)
    requires RemovalMisses(b, x) && y.isBuy == x.isBuy
    requires b.Best(!x.isBuy) == BestIn(Prices(Filter(b.live, NotRef(x.ref)), !x.isBuy), !x.isBuy)
    ensures var b1 := RemoveFully(b, x);
            var b2 := b1.(live := b1.live + [y]).WithBest(y.isBuy, ImproveBest(b1.Best(y.isBuy), y.price, y.isBuy));
            BestIsTrue(b2) <==> !Better(BestIn(Prices(b1.live, x.isBuy), x.isBuy).value, y.price, x.isBuy)
  {
    hide Filter, Queue, SharesAt;
    var side := x.isBuy;
    var b1 := RemoveFully(b, x);
    var b2 := b1.(live := b1.live + [y]).WithBest(side, ImproveBest(b1.Best(side), y.price, side));
    var prices := Prices(b1.live, side);
    var best := BestIn(prices, side).value;
    assert b1.Best(side) == BestIn(Visible(b1.live, side), side);
    assert forall z :: z in b2.live <==> z in b1.live || z == y;
    assert Prices(b2.live, side) == prices + {y.price};
    assert Prices(b2.live, !side) == Prices(b1.live, !side);
    BestIsUnique(prices + {y.price}, side, Some(if Better(best, y.price, side) then best else y.price));
    assert b2.Best(!side) == BestIn(Prices(b2.live, !side), !side);
  }

  lemma ReplacementExact(b: BookState, capacity: nat, oldRef: OrderRef, newRef: OrderRef, shares: Shares, price: Price4)
    requires WellFormed(b, capacity) && BestIsTrue(b)
    ensures BestIsTrue(Replace(b, capacity, oldRef, newRef, shares, price).0)
            <==> !ReplacementMisses(b, oldRef, newRef, shares, price)
  {
    hide Filter, WellFormed, RemovalMisses, RemoveFully, BestIsTrue;
    ReplaceSucceeds(b, capacity, oldRef, newRef, shares, price);
    if Replace(b, capacity, oldRef, newRef, shares, price).1 {
      var x := Lookup(b.live, oldRef).value;
      var y := Resting(newRef, price, shares, x.isBuy, 0);
      RemovalExact(b, capacity, x);
      if RemovalMisses(b, x) {
        OtherSideTrue(b, capacity, x);
        AddAfterMiss(b, x, y);
      } else {
        AddKeepsBest(RemoveFully(b, x), capacity, y);
      }
    }
  }

  lemma OtherSideTrue(b: BookState, capacity: nat, x: Resting)
    requires WellFormed(b, capacity) && BestIsTrue(b) && x in b.live
    ensures b.Best(!x.isBuy) == BestIn(Prices(Filter(b.live, NotRef(x.ref)), !x.isBuy), !x.isBuy)
    ensures RemoveFully(b, x).live == Filter(b.live, NotRef(x.ref))
  {
    PricesAfterRemoval(b.live, x);
  }

  /** Exactly the missing operations leave a cached best price false; the condition speaks of the state before. */
  lemma StepKeepsBestExactly(b: BookState, capacity: nat, op: Op)
    requires WellFormed(b, capacity) && BestIsTrue(b)
    ensures BestIsTrue(Step(b, capacity, op).0) <==> !StepMisses(b, op)
  {
    hide WellFormed, BestIsTrue, Reduce, Replace, RemovalMisses, ReductionMisses, ReplacementMisses, RemoveFully;
    match op
    case AddOp(ref, price, shares, isBuy) => AddKeepsBest(b, capacity, Resting(ref, price, shares, isBuy, 0));
    case ExecuteOp(ref, shares) => ReductionExact(b, capacity, ref, shares);
    case CancelOp(ref, shares) => ReductionExact(b, capacity, ref, shares);
    case DeleteOp(ref) =>
      if Lookup(b.live, ref).Some? {
        RemovalExact(b, capacity, Lookup(b.live, ref).value);
      }
    case ReplaceOp(oldRef, newRef, shares, price) => ReplacementExact(b, capacity, oldRef, newRef, shares, price);
  }

  /** While both sides stay below 2^32 shares no operation misses. */
  lemma SmallSidesNeverMiss(b: BookState, capacity: nat, op: Op)
    requires WellFormed(b, capacity) && forall isBuy :: SideTotal(b.live, isBuy) < TWO_TO_32
    ensures !StepMisses(b, op)
  {
    hide WellFormed, RemovalMisses, SideTotal;
    var x := match op
      case AddOp(_, _, _, _) => None
      case ExecuteOp(ref, _) => Lookup(b.live, ref)
      case CancelOp(ref, _) => Lookup(b.live, ref)
      case DeleteOp(ref) => Lookup(b.live, ref)
      case ReplaceOp(oldRef, _, _, _) => Lookup(b.live, oldRef);
    if x.Some? {
      assert SideTotal(b.live, x.value.isBuy) < TWO_TO_32;
      SmallSideRemovalSees(b, capacity, x.value);
    }
  }

  lemma SmallSideRemovalSees(b: BookState, capacity: nat, x: Resting)
    requires WellFormed(b, capacity) && x in b.live && SideTotal(b.live, x.isBuy) < TWO_TO_32
    ensures !RemovalMisses(b, x)
  {
    hide Filter, Sum, Queue, BestIn, SideTotal, SharesAt, DistinctRefs;
    var live' := Filter(b.live, NotRef(x.ref));
    FilterMembers(b.live, NotRef(x.ref));
    ReduceSideTotal(b.live, x, 0, x.isBuy);
    SmallSideHidesNothing(live', x.isBuy);
  }

  /** Reducing an order takes exactly the reduction out of the book, and adds nothing to either side. */
  lemma ReduceTotals(b: BookState, capacity: nat, ref: OrderRef, delta: Shares)
    requires WellFormed(b, capacity)
    ensures var (b', ok) := Reduce(b, ref, delta);
            && Sum(b'.live) == Sum(b.live) - (if ok then delta else 0)
            && forall isBuy :: SideTotal(b'.live, isBuy) <= SideTotal(b.live, isBuy)
  {
    hide Filter, Sum, WithShares, SideTotal, DistinctRefs, AllPositive;
    var x := Lookup(b.live, ref);
    if x.Some? && 0 < delta <= x.value.shares {
      var n := x.value.shares - delta;
      if n == 0 {
        SumRemove(b.live, x.value);
      } else {
        SumWithShares(b.live, x.value, n);
      }
      forall isBuy
        ensures SideTotal(Reduce(b, ref, delta).0.live, isBuy) <= SideTotal(b.live, isBuy)
      {
        ReduceSideTotal(b.live, x.value, n, isBuy);
      }
    }
  }

  lemma ReduceSideTotal(live: seq<Resting>, x: Resting, n: Shares, isBuy: bool)
    requires DistinctRefs(live) && x in live && n <= x.shares
    ensures SideTotal(WithShares(live, x.ref, n), isBuy) <= SideTotal(live, isBuy)
    ensures SideTotal(Filter(live, NotRef(x.ref)), isBuy) <= SideTotal(live, isBuy)
  {
    var side := Filter(live, OnSide(isBuy));
    FilterCommutes(live, NotRef(x.ref), OnSide(isBuy));
    SumOfFilter(side, NotRef(x.ref));
    FilterWithShares(live, x.ref, n, OnSide(isBuy));
    FilterDistinct(live, OnSide(isBuy));
    FilterMembers(live, OnSide(isBuy));
    if x in side {
      SumWithShares(side, x, n);
    } else {
      forall y | y in side
        ensures y.ref != x.ref
      {
        if y.ref == x.ref {
          SameRefSameOrder(live, x, y);
        }
      }
      WithSharesAbsent(side, x.ref, n);
    }
  }
}
