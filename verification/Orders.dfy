/**
 Resting orders and sequences of them in arrival order: filtering, share sums
 and look-up by reference, with the few laws the book's proofs are built from.
 */
module Orders {
  import opened ItchTypes
  import opened Options

  /** One live order. Trader 0 means "no trader". */
  datatype Resting = Resting(ref: OrderRef, price: Price4, shares: Shares, isBuy: bool, trader: TraderId)

  /** The tests orders are filtered by. */
  datatype Test =
    | AtLevel(price: Price4, isBuy: bool)
    | OnSide(isBuy: bool)
    | NotRef(ref: OrderRef)
    | NotTrader(trader: TraderId)
    | Anyone
    | Matchable(isBuy: bool, limit: Option<Price4>, exclude: Option<TraderId>, from: Option<Price4>)
  {
    predicate Holds(x: Resting) {
      match this
      case AtLevel(p, b) => x.price == p && x.isBuy == b
      case OnSide(b) => x.isBuy == b
      case NotRef(r) => x.ref != r
      case NotTrader(t) => x.trader != t
      case Anyone => true
      // an order on this side, within the limit, of no excluded trader, at `from` or a worse price
      case Matchable(b, limit, exclude, from) =>
        && x.isBuy == b
        && (limit.Some? ==> if b then x.price >= limit.value else x.price <= limit.value)
        && (exclude.Some? ==> x.trader != exclude.value)
        && (from.Some? ==> if b then x.price <= from.value else x.price >= from.value)
    }
  }

  function Keep(x: Resting, t: Test): seq<Resting> {
    if t.Holds(x) then [x] else []
  }

  function Filter(s: seq<Resting>, t: Test): seq<Resting> {
    if s == [] then [] else Filter(s[..|s| - 1], t) + Keep(s[|s| - 1], t)
  }

  function Sum(s: seq<Resting>): nat {
    if s == [] then 0 else Sum(s[..|s| - 1]) + s[|s| - 1].shares
  }

  /** `s` with the order `ref` left with `n` shares, in the same place. */
  function WithShares(s: seq<Resting>, ref: OrderRef, n: Shares): (r: seq<Resting>)
    ensures |r| == |s|
  {
    if s == [] then [] else WithShares(s[..|s| - 1], ref, n) + [Left(s[|s| - 1], ref, n)]
  }

  /** The order `x`, left with `n` shares if it is the order `ref`. */
  function Left(x: Resting, ref: OrderRef, n: Shares): Resting {
    if x.ref == ref then x.(shares := n) else x
  }

  lemma {:induction false} WithSharesAt(s: seq<Resting>, ref: OrderRef, n: Shares, i: nat)
    requires i < |s|
    ensures WithShares(s, ref, n)[i] == Left(s[i], ref, n)
  {
    if i < |s| - 1 {
      WithSharesAt(s[..|s| - 1], ref, n, i);
    }
  }

  lemma {:induction false} WithSharesMembers(s: seq<Resting>, ref: OrderRef, n: Shares)
    ensures forall x :: x in s ==> Left(x, ref, n) in WithShares(s, ref, n)
    ensures forall y :: y in WithShares(s, ref, n) ==> exists x :: x in s && y == Left(x, ref, n)
  {
    if s != [] {
      WithSharesMembers(s[..|s| - 1], ref, n);
    }
  }

  function Lookup(s: seq<Resting>, ref: OrderRef): (r: Option<Resting>)
    ensures r.Some? ==> r.value in s && r.value.ref == ref
    ensures r.None? ==> forall x :: x in s ==> x.ref != ref
  {
    if s == [] then None
    else if s[|s| - 1].ref == ref then Some(s[|s| - 1])
    else Lookup(s[..|s| - 1], ref)
  }

  ghost predicate RefsDiffer(s: seq<Resting>, i: nat, j: nat)
    requires i < |s| && j < |s|
  {
    s[i].ref != s[j].ref
  }

  ghost predicate DistinctRefs(s: seq<Resting>) {
    forall i: nat, j: nat :: i < j < |s| ==> RefsDiffer(s, i, j)
  }

  ghost predicate AllPositive(s: seq<Resting>) {
    forall x :: x in s ==> x.shares > 0
  }

  lemma {:induction false} FilterMembers(s: seq<Resting>, t: Test)
    ensures forall x :: x in Filter(s, t) <==> x in s && t.Holds(x)
    ensures |Filter(s, t)| <= |s|
  {
    if s != [] {
      FilterMembers(s[..|s| - 1], t);
    }
  }

  lemma RefsDifferAt(s: seq<Resting>, i: nat, j: nat)
    requires DistinctRefs(s) && i < |s| && j < |s| && i != j
    ensures s[i].ref != s[j].ref
  {
    assert if i < j then RefsDiffer(s, i, j) else RefsDiffer(s, j, i);
  }

  lemma SameRefSameOrder(s: seq<Resting>, x: Resting, y: Resting)
    requires DistinctRefs(s) && x in s && y in s && x.ref == y.ref
    ensures x == y
  {
    var i: nat :| i < |s| && s[i] == x;
    var j: nat :| j < |s| && s[j] == y;
    if i != j {
      RefsDifferAt(s, i, j);
    }
  }

  /** A sequence has distinct references exactly when all but its last order do and the last one is new. */
  lemma DistinctInit(s: seq<Resting>)
    requires DistinctRefs(s) && s != []
    ensures DistinctRefs(s[..|s| - 1])
    ensures forall x :: x in s[..|s| - 1] ==> x.ref != s[|s| - 1].ref
  {
    var init := s[..|s| - 1];
    forall i: nat, j: nat | i < j < |init|
      ensures RefsDiffer(init, i, j)
    {
      RefsDifferAt(s, i, j);
    }
    forall x | x in s[..|s| - 1]
      ensures x.ref != s[|s| - 1].ref
    {
      var i: nat :| i < |s| - 1 && s[i] == x;
      RefsDifferAt(s, i, |s| - 1);
    }
  }

  lemma DistinctAppend(s: seq<Resting>, x: Resting)
    requires DistinctRefs(s)
    requires forall y :: y in s ==> y.ref != x.ref
    ensures DistinctRefs(s + [x])
  {
    forall i: nat, j: nat | i < j < |s| + 1
      ensures RefsDiffer(s + [x], i, j)
    {
      if j < |s| {
        RefsDifferAt(s, i, j);
      } else {
        assert s[i] in s;
      }
    }
  }

  lemma {:induction false} FilterConcat(a: seq<Resting>, b: seq<Resting>, t: Test)
    ensures Filter(a + b, t) == Filter(a, t) + Filter(b, t)
  {
    if b == [] {
      assert a + b == a;
    } else {
      assert (a + b)[..|a + b| - 1] == a + b[..|b| - 1];
      FilterConcat(a, b[..|b| - 1], t);
    }
  }

  lemma FilterAppend(s: seq<Resting>, x: Resting, t: Test)
    ensures Filter(s + [x], t) == Filter(s, t) + Keep(x, t)
  {
    assert (s + [x])[..|s|] == s;
  }

  lemma FilterKeep(s: seq<Resting>, x: Resting, t: Test, u: Test)
    ensures Filter(s + Keep(x, t), u) == Filter(s, u) + (if t.Holds(x) then Keep(x, u) else [])
  {
    if t.Holds(x) {
      FilterAppend(s, x, u);
    } else {
      assert s + Keep(x, t) == s;
    }
  }

  lemma {:induction false} FilterCommutes(s: seq<Resting>, t: Test, u: Test)
    ensures Filter(Filter(s, t), u) == Filter(Filter(s, u), t)
  {
    if s != [] {
      var init, last := s[..|s| - 1], s[|s| - 1];
      FilterCommutes(init, t, u);
      FilterKeep(Filter(init, t), last, t, u);
      FilterKeep(Filter(init, u), last, u, t);
    }
  }

  lemma {:induction false} FilterAll(s: seq<Resting>, t: Test)
    requires forall x :: x in s ==> t.Holds(x)
    ensures Filter(s, t) == s
  {
    if s != [] {
      FilterAll(s[..|s| - 1], t);
    }
  }

  /** Filtering twice is filtering once when the second test is the stronger one. */
  lemma {:induction false} FilterStronger(s: seq<Resting>, t: Test, u: Test)
    requires forall x :: x in s && u.Holds(x) ==> t.Holds(x)
    ensures Filter(Filter(s, t), u) == Filter(s, u)
  {
    if s != [] {
      var init, last := s[..|s| - 1], s[|s| - 1];
      FilterStronger(init, t, u);
      FilterKeep(Filter(init, t), last, t, u);
    }
  }

  lemma {:induction false} FilterDistinct(s: seq<Resting>, t: Test)
    requires DistinctRefs(s)
    ensures DistinctRefs(Filter(s, t))
  {
    if s != [] {
      var init, last := s[..|s| - 1], s[|s| - 1];
      DistinctInit(s);
      FilterDistinct(init, t);
      FilterMembers(init, t);
      if t.Holds(last) {
        DistinctAppend(Filter(init, t), last);
      } else {
        assert Filter(s, t) == Filter(init, t);
      }
    }
  }

  lemma SumAppend(s: seq<Resting>, x: Resting)
    ensures Sum(s + [x]) == Sum(s) + x.shares
  {
    assert (s + [x])[..|s|] == s;
  }

  lemma SumKeep(s: seq<Resting>, x: Resting, t: Test)
    ensures Sum(s + Keep(x, t)) == Sum(s) + (if t.Holds(x) then x.shares else 0)
  {
    if t.Holds(x) {
      SumAppend(s, x);
    } else {
      assert s + Keep(x, t) == s;
    }
  }

  lemma {:induction false} SumConcat(a: seq<Resting>, b: seq<Resting>)
    ensures Sum(a + b) == Sum(a) + Sum(b)
  {
    if b == [] {
      assert a + b == a;
    } else {
      assert (a + b)[..|a + b| - 1] == a + b[..|b| - 1];
      SumConcat(a, b[..|b| - 1]);
    }
  }

  lemma {:induction false} SumOfFilter(s: seq<Resting>, t: Test)
    ensures Sum(Filter(s, t)) <= Sum(s)
  {
    if s != [] {
      var init, last := s[..|s| - 1], s[|s| - 1];
      SumOfFilter(init, t);
      SumKeep(Filter(init, t), last, t);
    }
  }

  /** Two tests that exclude each other select parts of the sum; all of it, if one or the other always holds. */
  lemma {:induction false} SumParts(s: seq<Resting>, u: Test, v: Test)
    requires forall x :: x in s ==> !(u.Holds(x) && v.Holds(x))
    ensures Sum(Filter(s, u)) + Sum(Filter(s, v)) <= Sum(s)
    ensures (forall x :: x in s ==> u.Holds(x) || v.Holds(x)) ==> Sum(Filter(s, u)) + Sum(Filter(s, v)) == Sum(s)
  {
    if s != [] {
      var init, last := s[..|s| - 1], s[|s| - 1];
      SumParts(init, u, v);
      SumKeep(Filter(init, u), last, u);
      SumKeep(Filter(init, v), last, v);
    }
  }

  lemma {:induction false} FilterSame(s: seq<Resting>, t: Test, u: Test)
    requires forall x :: x in s ==> (t.Holds(x) <==> u.Holds(x))
    ensures Filter(s, t) == Filter(s, u)
  {
    if s != [] {
      FilterSame(s[..|s| - 1], t, u);
    }
  }

  lemma {:induction false} FilterNone(s: seq<Resting>, t: Test)
    requires forall x :: x in s ==> !t.Holds(x)
    ensures Filter(s, t) == []
  {
    if s != [] {
      FilterNone(s[..|s| - 1], t);
    }
  }

  lemma {:induction false} SumPositive(s: seq<Resting>)
    requires AllPositive(s) && s != []
    ensures Sum(s) > 0
  {
    if |s| > 1 {
      assert AllPositive(s[..|s| - 1]);
      SumPositive(s[..|s| - 1]);
    }
  }

  /** Removing one order takes exactly its shares out of the sum. */
  lemma {:induction false} SumRemove(s: seq<Resting>, x: Resting)
    requires DistinctRefs(s) && x in s
    ensures Sum(s) == Sum(Filter(s, NotRef(x.ref))) + x.shares
    ensures |Filter(s, NotRef(x.ref))| == |s| - 1
  {
    var init, last := s[..|s| - 1], s[|s| - 1];
    DistinctInit(s);
    if last.ref == x.ref {
      assert x == last;
      FilterAll(init, NotRef(x.ref));
      assert Filter(s, NotRef(x.ref)) == init;
    } else {
      assert x in init;
      SumRemove(init, x);
      SumKeep(Filter(init, NotRef(x.ref)), last, NotRef(x.ref));
    }
  }

  lemma {:induction false} SumWithShares(s: seq<Resting>, x: Resting, n: Shares)
    requires DistinctRefs(s) && x in s
    ensures Sum(WithShares(s, x.ref, n)) == Sum(s) - x.shares + n
  {
    var init, last := s[..|s| - 1], s[|s| - 1];
    var w := WithShares(init, x.ref, n);
    DistinctInit(s);
    if last.ref == x.ref {
      assert x == last;
      WithSharesAbsent(init, x.ref, n);
      SumAppend(w, last.(shares := n));
    } else {
      assert x in init;
      SumWithShares(init, x, n);
      SumAppend(w, last);
    }
  }

  lemma {:induction false} WithSharesAbsent(s: seq<Resting>, ref: OrderRef, n: Shares)
    requires forall x :: x in s ==> x.ref != ref
    ensures WithShares(s, ref, n) == s
  {
    if s != [] {
      WithSharesAbsent(s[..|s| - 1], ref, n);
    }
  }

  /** A change of shares does not move an order between levels, sides or positions. */
  lemma {:induction false} FilterWithShares(s: seq<Resting>, ref: OrderRef, n: Shares, t: Test)
    ensures Filter(WithShares(s, ref, n), t) == WithShares(Filter(s, t), ref, n)
  {
    hide Test.Holds, Left;
    if s != [] {
      var init, last := s[..|s| - 1], s[|s| - 1];
      var f, y := Filter(init, t), Left(last, ref, n);
      FilterWithShares(init, ref, n, t);
      FilterAppend(WithShares(init, ref, n), y, t);
      LeftKeepsTest(last, ref, n, t);
      if t.Holds(last) {
        assert (f + [last])[..|f|] == f;
      } else {
        assert f + [] == f;
      }
    }
  }

  lemma LeftKeepsTest(x: Resting, ref: OrderRef, n: Shares, t: Test)
    ensures t.Holds(Left(x, ref, n)) == t.Holds(x)
  {
  }

  /** Dropping the order at position `j` by its reference drops just that position. */
  lemma {:induction false} FilterNotRefAt(s: seq<Resting>, j: nat)
    requires DistinctRefs(s) && j < |s|
    ensures Filter(s, NotRef(s[j].ref)) == s[..j] + s[j + 1..]
  {
    var last := |s| - 1;
    DistinctInit(s);
    if j == last {
      FilterAll(s[..last], NotRef(s[j].ref));
    } else {
      FilterNotRefAt(s[..last], j);
      RefsDifferAt(s, j, last);
      assert s[..last][..j] == s[..j];
      assert s[..last][j + 1..] + [s[last]] == s[j + 1..];
    }
  }

  lemma LookupFinds(s: seq<Resting>, x: Resting)
    requires DistinctRefs(s) && x in s
    ensures Lookup(s, x.ref) == Some(x)
  {
    SameRefSameOrder(s, x, Lookup(s, x.ref).value);
  }

  lemma {:induction false} LookupWithout(s: seq<Resting>, ref: OrderRef, r: OrderRef)
    ensures Lookup(Filter(s, NotRef(ref)), r) == if r == ref then None else Lookup(s, r)
  {
    if s != [] {
      var init, last := s[..|s| - 1], s[|s| - 1];
      LookupWithout(init, ref, r);
      if last.ref != ref {
        LookupAppended(Filter(init, NotRef(ref)), last, r);
      } else {
        assert Filter(init, NotRef(ref)) + [] == Filter(init, NotRef(ref));
      }
    }
  }

  lemma LookupAppended(s: seq<Resting>, x: Resting, r: OrderRef)
    ensures Lookup(s + [x], r) == if r == x.ref then Some(x) else Lookup(s, r)
  {
    assert (s + [x])[..|s|] == s;
  }

  lemma {:induction false} LookupWithShares(s: seq<Resting>, ref: OrderRef, n: Shares, r: OrderRef)
    ensures Lookup(WithShares(s, ref, n), r)
         == (if r == ref && Lookup(s, r).Some? then Some(Lookup(s, r).value.(shares := n)) else Lookup(s, r))
  {
    if s != [] {
      var init, last := s[..|s| - 1], s[|s| - 1];
      LookupWithShares(init, ref, n, r);
      LookupAppended(WithShares(init, ref, n), Left(last, ref, n), r);
    }
  }

  lemma TwoOrders(a: Resting, b: Resting, t: Test)
    ensures Filter([a, b], t) == Keep(a, t) + Keep(b, t)
    ensures Sum(Filter([a, b], t)) == (if t.Holds(a) then a.shares else 0) + (if t.Holds(b) then b.shares else 0)
  {
    FilterAppend([], a, t);
    FilterAppend([a], b, t);
    assert [] + [a] == [a] && [a] + [b] == [a, b];
    SumKeep([], a, t);
    SumKeep(Keep(a, t), b, t);
    assert [] + Keep(a, t) == Keep(a, t);
  }

  lemma ThreeOrders(a: Resting, b: Resting, c: Resting, t: Test)
    ensures Filter([a, b, c], t) == Keep(a, t) + Keep(b, t) + Keep(c, t)
    ensures Sum(Filter([a, b, c], t)) ==
            (if t.Holds(a) then a.shares else 0) + (if t.Holds(b) then b.shares else 0)
              + (if t.Holds(c) then c.shares else 0)
  {
    FilterAppend([], a, t);
    FilterAppend([a], b, t);
    FilterAppend([a, b], c, t);
    assert [] + [a] == [a] && [a] + [b] == [a, b] && [a, b] + [c] == [a, b, c];
    SumKeep([], a, t);
    SumKeep(Keep(a, t), b, t);
    SumKeep(Keep(a, t) + Keep(b, t), c, t);
    assert [] + Keep(a, t) == Keep(a, t);
  }
}
