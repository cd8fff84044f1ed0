/**
 The read-only walk over one side of the book: start at the best level, then ask
 again and again for the next level after the last one.
 */
module BookWalk {
  import opened BookSpec
  import opened EngineSpec
  import opened ItchTypes
  import opened Options
  import opened Orders

  /** The prices that the walk visits from `level` on. */
  ghost function Walk(live: seq<Resting>, isBuy: bool, level: Option<Price4>): seq<Price4>
    decreases if level.None? then 0 else 1 + Beyond(level.value, isBuy)
  {
    if level.None? then [] else [level.value] + Walk(live, isBuy, NextVisible(live, level.value, isBuy))
  }

  ghost predicate Worsening(prices: seq<Price4>, isBuy: bool) {
    forall i, j :: 0 <= i < j < |prices| ==> Better(prices[i], prices[j], isBuy)
  }

  /** The walk visits its first level and every visible level worse than it, each once, ever worse. */
  lemma {:induction false} WalkVisitsRest(live: seq<Resting>, isBuy: bool, level: Option<Price4>)
    ensures Worsening(Walk(live, isBuy, level), isBuy)
    ensures forall p :: p in Walk(live, isBuy, level)
                        <==> level.Some? &&
                             (p == level.value || (p in Visible(live, isBuy) && Better(level.value, p, isBuy)))
    decreases if level.None? then 0 else 1 + Beyond(level.value, isBuy)
  {
    hide Visible;
    if level.Some? {
      var p := level.value;
      var next := NextVisible(live, p, isBuy);
      WalkVisitsRest(live, isBuy, next);
      var rest := Walk(live, isBuy, next);
      forall q | q in Visible(live, isBuy) && Better(p, q, isBuy)
        ensures q in rest
      {
        assert q in WorseThan(Visible(live, isBuy), p, isBuy);
      }
      forall j | 0 <= j < |rest|
        ensures Better(p, rest[j], isBuy)
      {
        assert rest[j] in rest;
      }
    }
  }

  /**
   From a cached best that no visible level beats, the walk visits the cached best
   and the visible levels, each once, in strictly worsening order.
   */
  lemma WalkFromBest(b: BookState, isBuy: bool)
    requires Leads(b, isBuy)
    ensures Worsening(Walk(b.live, isBuy, b.Best(isBuy)), isBuy)
    ensures forall p :: p in Walk(b.live, isBuy, b.Best(isBuy))
                        <==> b.Best(isBuy) == Some(p) || p in Visible(b.live, isBuy)
  {
    hide Visible;
    WalkVisitsRest(b.live, isBuy, b.Best(isBuy));
  }

  ghost predicate WalksAll(b: BookState, isBuy: bool) {
    forall p :: p in Walk(b.live, isBuy, b.Best(isBuy)) <==> p in Prices(b.live, isBuy)
  }

  /** No level behind the cached best one has a counter that wrapped to zero. */
  ghost predicate NoneHidesBehind(b: BookState, isBuy: bool) {
    forall p :: p in Prices(b.live, isBuy) && b.Best(isBuy) != Some(p) ==> SharesAt(b.live, p, isBuy) != 0
  }

  /**
   With a true cached best, the walk visits exactly the levels that have orders, if
   and only if none behind the best one hides.
   */
  lemma WalkVisitsExactly(b: BookState, isBuy: bool)
    requires BestIsTrue(b)
    ensures Worsening(Walk(b.live, isBuy, b.Best(isBuy)), isBuy)
    ensures WalksAll(b, isBuy) <==> NoneHidesBehind(b, isBuy)
  {
    hide Walk, Worsening, SharesAt;
    TrueBestLeads(b, isBuy);
    WalkFromBest(b, isBuy);
    assert b.Best(isBuy) == BestIn(Prices(b.live, isBuy), isBuy);
  }

  /** In particular when no level hides at all, as below 2^32 shares on the side. */
  lemma WalkVisitsEveryLevel(b: BookState, isBuy: bool)
    requires BestIsTrue(b) && NoHiddenLevel(b.live, isBuy)
    ensures Worsening(Walk(b.live, isBuy, b.Best(isBuy)), isBuy)
    ensures forall p :: p in Walk(b.live, isBuy, b.Best(isBuy)) <==> p in Prices(b.live, isBuy)
  {
    hide Walk, Worsening;
    WalkVisitsExactly(b, isBuy);
  }
}
