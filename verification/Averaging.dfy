/** Averaging of clocks: one serial round pulls the clocks together by a fixed factor. */
module Averaging {

  function Sum(x: seq<real>): real {
    if x == [] then 0.0 else Sum(x[..|x| - 1]) + x[|x| - 1]
  }

  function Mean(x: seq<real>): real
    requires x != []
  {
    Sum(x) / |x| as real
  }

  function Negated(x: seq<real>): (r: seq<real>)
    ensures |r| == |x| && forall i :: 0 <= i < |x| ==> r[i] == -x[i]
  {
    seq(|x|, i requires 0 <= i < |x| => -x[i])
  }

  predicate AllAtLeast(x: seq<real>, lo: real) {
    forall i :: 0 <= i < |x| ==> lo <= x[i]
  }

  predicate AllWithin(x: seq<real>, lo: real, hi: real) {
    forall i :: 0 <= i < |x| ==> lo <= x[i] <= hi
  }

  /** n times c, as repeated addition. */
  function Times(n: nat, c: real): real {
    if n == 0 then 0.0 else Times(n - 1, c) + c
  }

  lemma {:induction false} TimesIsProduct(n: nat, c: real)
    ensures Times(n, c) == n as real * c
  {
    if n == 0 {
    } else {
      TimesIsProduct(n - 1, c);
    }
  }

  lemma {:induction false} TimesGrows(n: nat, c: real)
    requires n > 0 && c >= 0.0
    ensures Times(n, c) >= c
  {
    if n <= 1 {
    } else {
      TimesGrows(n - 1, c);
    }
  }

  lemma {:induction false} SumAtLeast(x: seq<real>, lo: real)
    requires AllAtLeast(x, lo)
    ensures Times(|x|, lo) <= Sum(x)
  {
    if x == [] {
    } else {
      SumAtLeast(x[..|x| - 1], lo);
    }
  }

  /** One value that lies above the rest lifts the sum by its excess. */
  lemma {:induction false} SumWithExcess(x: seq<real>, lo: real, w: nat)
    requires AllAtLeast(x, lo) && w < |x|
    ensures Times(|x|, lo) + (x[w] - lo) <= Sum(x)
  {
    var front := x[..|x| - 1];
    if w == |x| - 1 {
      SumAtLeast(front, lo);
    } else {
      SumWithExcess(front, lo, w);
    }
  }

  lemma SumOfAppend(x: seq<real>, v: real)
    ensures Sum(x + [v]) == Sum(x) + v
  {
    assert (x + [v])[..|x|] == x;
  }

  lemma {:induction false} SumOfNegated(x: seq<real>)
    ensures Sum(Negated(x)) == -Sum(x)
  {
    if x == [] {
    } else {
      SumOfNegated(x[..|x| - 1]);
      assert Negated(x)[..|x| - 1] == Negated(x[..|x| - 1]);
    }
  }

  lemma MeanOfNegated(x: seq<real>)
    requires x != []
    ensures Mean(Negated(x)) == -Mean(x)
  {
    SumOfNegated(x);
    NegatedQuotient(Sum(x), |x| as real);
  }

  lemma NegatedQuotient(a: real, b: real)
    requires b > 0.0
    ensures (-a) / b == -(a / b)
  {
  }

  lemma QuotientAtLeast(a: real, n: nat, lo: real, c: real)
    requires n > 0 && Times(n, lo) + Times(n, c) <= a
    ensures lo + c <= a / n as real
  {
    TimesIsProduct(n, lo);
    TimesIsProduct(n, c);
    assert n as real * (lo + c) <= a;
  }

  lemma MeanWithExcess(x: seq<real>, lo: real, w: nat, c: real)
    requires AllAtLeast(x, lo) && w < |x| && lo + Times(|x|, c) <= x[w]
    ensures lo + c <= Mean(x)
  {
    SumWithExcess(x, lo, w);
    QuotientAtLeast(Sum(x), |x|, lo, c);
  }

  lemma MeanAtLeast(x: seq<real>, lo: real)
    requires x != [] && AllAtLeast(x, lo)
    ensures lo <= Mean(x)
  {
    TimesIsProduct(|x|, 0.0);
    MeanWithExcess(x, lo, 0, 0.0);
  }

  /** A mean never leaves the hull of its samples. */
  lemma MeanIsWithin(x: seq<real>, lo: real, hi: real)
    requires x != [] && AllWithin(x, lo, hi)
    ensures lo <= Mean(x) <= hi
  {
    MeanAtLeast(x, lo);
    MeanAtLeast(Negated(x), -hi);
    MeanOfNegated(x);
  }

  // ---------------------------------------------------------------- rounds

  predicate Order(order: seq<nat>, n: nat) {
    && (forall k :: 0 <= k < |order| ==> order[k] < n)
    && (forall j, k :: 0 <= j < k < |order| ==> order[j] != order[k])
  }

  /** Every node adjusts once. */
  predicate FullOrder(order: seq<nat>, n: nat) {
    Order(order, n) && forall i: nat :: i < n ==> i in order
  }

  /** The nodes adjust one after the other, in this order, each to the mean of all. */
  function Round(x: seq<real>, order: seq<nat>): (r: seq<real>)
    requires Order(order, |x|)
    ensures |r| == |x|
    decreases |order|
  {
    if order == [] then x else Round(x[order[0] := Mean(x)], order[1..])
  }

  lemma {:induction false} RoundOfNegated(x: seq<real>, order: seq<nat>)
    requires Order(order, |x|)
    ensures Round(Negated(x), order) == Negated(Round(x, order))
    decreases |order|
  {
    if order == [] {
    } else {
      assert order[0] < |x|;
      MeanOfNegated(x);
      assert Negated(x)[order[0] := Mean(Negated(x))] == Negated(x[order[0] := Mean(x)]);
      RoundOfNegated(x[order[0] := Mean(x)], order[1..]);
    }
  }

  /** Clock w lies far above the lowest clock: by n c, and by n n c until it has adjusted itself. */
  predicate Lifted(x: seq<real>, order: seq<nat>, lo: real, c: real, w: nat) {
    && w < |x|
    && lo + Times(|x|, c) <= x[w]
    && (w in order ==> lo + Times(|x|, Times(|x|, c)) <= x[w])
  }

  lemma {:induction false} RoundLifts(x: seq<real>, order: seq<nat>, lo: real, c: real, w: nat)
    requires Order(order, |x|) && AllAtLeast(x, lo) && c >= 0.0 && Lifted(x, order, lo, c, w)
    ensures forall i: nat :: i < |x| && (i in order || lo + c <= x[i]) ==> lo + c <= Round(x, order)[i]
    decreases |order|
  {
    if order == [] {
    } else {
      var first, rest := order[0], order[1..];
      var x' := x[first := Mean(x)];
      MeanWithExcess(x, lo, w, c);
      if first == w {
        MeanWithExcess(x, lo, w, Times(|x|, c));
        TimesGrows(|x|, c);
      }
      assert order == [first] + rest;
      RoundLifts(x', rest, lo, c, w);
    }
  }

  // ---------------------------------------------------------------- spread

  function Min(x: seq<real>): (m: real)
    requires x != []
    ensures m in x && AllAtLeast(x, m)
  {
    if |x| == 1 then x[0]
    else
      var m := Min(x[..|x| - 1]);
      if m <= x[|x| - 1] then m else x[|x| - 1]
  }

  function Max(x: seq<real>): (m: real)
    requires x != []
    ensures m in x && forall i :: 0 <= i < |x| ==> x[i] <= m
  {
    if |x| == 1 then x[0]
    else
      var m := Max(x[..|x| - 1]);
      if m >= x[|x| - 1] then m else x[|x| - 1]
  }

  /** The measure that is printed before and after a synchronization. */
  function Spread(x: seq<real>): real
    requires x != []
  {
    Max(x) - Min(x)
  }

  /** No two clocks are further apart than d. */
  predicate Close(x: seq<real>, d: real) {
    forall i, j :: 0 <= i < |x| && 0 <= j < |x| ==> x[i] - x[j] <= d
  }

  lemma CloserIsClose(x: seq<real>, d: real, e: real)
    requires Close(x, d) && d <= e
    ensures Close(x, e)
  {
  }

  lemma SpreadIsCloseness(x: seq<real>, d: real)
    requires x != []
    ensures Spread(x) <= d <==> Close(x, d)
  {
    var top, bottom := Extremes(x);
    assert x[top] - x[bottom] == Spread(x);
  }

  lemma Extremes(x: seq<real>) returns (top: nat, bottom: nat)
    requires x != []
    ensures top < |x| && bottom < |x| && x[top] == Max(x) && x[bottom] == Min(x)
    ensures forall i :: 0 <= i < |x| ==> x[bottom] <= x[i] <= x[top]
  {
    top :| top < |x| && x[top] == Max(x);
    bottom :| bottom < |x| && x[bottom] == Min(x);
  }

  /** The contraction of one round: 2 / n^2. */
  function Shrink(n: nat): (q: real)
    requires n > 0
    ensures q > 0.0
  {
    2.0 / (n as real * n as real)
  }

  lemma RoundRaisesMinimum(x: seq<real>, order: seq<nat>, lo: real, top: nat, c: real)
    requires FullOrder(order, |x|) && AllAtLeast(x, lo) && top < |x| && c >= 0.0
    requires x[top] - lo == Times(|x|, Times(|x|, c))
    ensures AllAtLeast(Round(x, order), lo + c)
  {
    TimesGrows(|x|, c);
    TimesGrows(|x|, Times(|x|, c));
    RoundLifts(x, order, lo, c, top);
  }

  lemma RoundLowersMaximum(x: seq<real>, order: seq<nat>, hi: real, bottom: nat, c: real)
    requires FullOrder(order, |x|) && AllAtLeast(Negated(x), -hi) && bottom < |x| && c >= 0.0
    requires hi - x[bottom] == Times(|x|, Times(|x|, c))
    ensures AllAtLeast(Negated(Round(x, order)), -hi + c)
  {
    RoundRaisesMinimum(Negated(x), order, -hi, bottom, c);
    RoundOfNegated(x, order);
  }

  lemma RoundTakesOff(x: seq<real>, order: seq<nat>, top: nat, bottom: nat, c: real)
    requires FullOrder(order, |x|) && top < |x| && bottom < |x| && c >= 0.0
    requires forall i :: 0 <= i < |x| ==> x[bottom] <= x[i] <= x[top]
    requires x[top] - x[bottom] == Times(|x|, Times(|x|, c))
    ensures Close(Round(x, order), x[top] - x[bottom] - c - c)
  {
    RoundRaisesMinimum(x, order, x[bottom], top, c);
    RoundLowersMaximum(x, order, x[top], bottom, c);
    var r := Round(x, order);
    forall i, j | 0 <= i < |r| && 0 <= j < |r|
      ensures r[i] - r[j] <= x[top] - x[bottom] - c - c
    {
      assert -x[top] + c <= Negated(r)[i];
    }
  }

  /** The n^2-th part of a distance. */
  function Share(d: real, n: nat): real
    requires n > 0
  {
    d / (n as real * n as real)
  }

  lemma ShareMakesWhole(d: real, n: nat)
    requires d >= 0.0 && n > 0
    ensures Share(d, n) >= 0.0 && d == Times(n, Times(n, Share(d, n)))
  {
    var c := Share(d, n);
    assert n as real * n as real * c == d;
    TimesIsProduct(n, c);
    TimesIsProduct(n, Times(n, c));
  }

  lemma TwoSharesLess(s: real, n: nat, d: real)
    requires n > 1 && s <= d
    ensures s - Share(s, n) - Share(s, n) <= (1.0 - Shrink(n)) * d
  {
    ShrinkIsProper(n);
    TwoPartsLess(s, d, n as real * n as real);
  }

  lemma TwoPartsLess(s: real, d: real, m: real)
    requires m > 0.0 && 2.0 / m < 1.0 && s <= d
    ensures s - s / m - s / m <= (1.0 - 2.0 / m) * d
  {
    var q := 2.0 / m;
    assert q * s == s / m + s / m by {
      assert s / m * m == s;
    }
    ScaleMonotone(1.0 - q, s, d);
    assert (1.0 - q) * s == s - q * s;
  }

  lemma ScaleMonotone(c: real, s: real, d: real)
    requires c >= 0.0 && s <= d
    ensures c * s <= c * d
  {
  }

  lemma ShrinkIsProper(n: nat)
    requires n > 1
    ensures 0.0 < Shrink(n) < 1.0
  {
    var m := n as real * n as real;
    assert m >= 2.0 * n as real >= 4.0;
  }

  lemma RoundTakesOffShares(x: seq<real>, order: seq<nat>) returns (s: real)
    requires x != [] && FullOrder(order, |x|)
    ensures forall d :: Close(x, d) ==> s <= d
    ensures Close(Round(x, order), s - Share(s, |x|) - Share(s, |x|))
  {
    var top, bottom := Extremes(x);
    s := x[top] - x[bottom];
    ShareMakesWhole(s, |x|);
    RoundTakesOff(x, order, top, bottom, Share(s, |x|));
  }

  lemma RoundTakesOffPart(x: seq<real>, order: seq<nat>, n: nat, d: real) returns (e: real)
    requires |x| == n > 1 && FullOrder(order, n) && Close(x, d)
    ensures Close(Round(x, order), e)
    ensures e <= (1.0 - Shrink(n)) * d
  {
    var s := RoundTakesOffShares(x, order);
    e := s - Share(s, n) - Share(s, n);
    TwoSharesLess(s, n, d);
  }

  /** One serial round in which every one of n nodes adjusts once, in any order, takes 2 / n^2 off the spread. */
  lemma RoundContracts(x: seq<real>, order: seq<nat>, n: nat, d: real)
    requires |x| == n > 1 && FullOrder(order, n) && Close(x, d)
    ensures Close(Round(x, order), (1.0 - Shrink(n)) * d)
  {
    var e := RoundTakesOffPart(x, order, n, d);
    CloserIsClose(Round(x, order), e, (1.0 - Shrink(n)) * d);
  }

  // ---------------------------------------------------------------- many rounds

  predicate FullOrders(orders: seq<seq<nat>>, n: nat) {
    forall k :: 0 <= k < |orders| ==> FullOrder(orders[k], n)
  }

  function Rounds(x: seq<real>, orders: seq<seq<nat>>): (r: seq<real>)
    requires FullOrders(orders, |x|)
    ensures |r| == |x|
  {
    if orders == [] then x else Round(Rounds(x, orders[..|orders| - 1]), orders[|orders| - 1])
  }

  function Power(c: real, r: nat): real {
    if r == 0 then 1.0 else Power(c, r - 1) * c
  }

  lemma PowerStep(c: real, r: nat, d: real, e: real)
    requires e == Power(c, r) * d
    ensures c * e == Power(c, r + 1) * d
  {
    Reassociate(c, Power(c, r), d);
  }

  lemma Reassociate(c: real, p: real, d: real)
    ensures c * (p * d) == p * c * d
  {
  }

  lemma {:induction false} RoundsCloseIn(x: seq<real>, orders: seq<seq<nat>>, n: nat, d: real) returns (e: real)
    requires |x| == n > 1 && FullOrders(orders, n) && Close(x, d)
    ensures Close(Rounds(x, orders), e) && e == Power(1.0 - Shrink(n), |orders|) * d
  {
    if orders == [] {
      e := d;
    } else {
      var r := |orders| - 1;
      var before := RoundsCloseIn(x, orders[..r], n, d);
      assert FullOrder(orders[r], n);
      RoundContracts(Rounds(x, orders[..r]), orders[r], n, before);
      e := (1.0 - Shrink(n)) * before;
      PowerStep(1.0 - Shrink(n), r, d, before);
    }
  }

  /** The spread falls geometrically with the number of rounds. */
  lemma RoundsContract(x: seq<real>, orders: seq<seq<nat>>, n: nat, d: real)
    requires |x| == n > 1 && FullOrders(orders, n) && Close(x, d)
    ensures Close(Rounds(x, orders), Power(1.0 - Shrink(n), |orders|) * d)
  {
    var e := RoundsCloseIn(x, orders, n, d);
  }

  lemma {:induction false} PowerVanishes(q: real, r: nat)
    requires 0.0 < q < 1.0
    ensures 0.0 <= Power(1.0 - q, r) && Power(1.0 - q, r) * (1.0 + r as real * q) <= 1.0
  {
    if r == 0 {
    } else {
      PowerVanishes(q, r - 1);
      BernoulliStep(q, (r - 1) as real, Power(1.0 - q, r - 1));
    }
  }

  lemma BernoulliStep(q: real, r: real, p: real)
    requires 0.0 < q < 1.0 && r >= 0.0 && p >= 0.0 && p * (1.0 + r * q) <= 1.0
    ensures 0.0 <= p * (1.0 - q) && p * (1.0 - q) * (1.0 + (r + 1.0) * q) <= 1.0
  {
    assert (1.0 - q) * (1.0 + (r + 1.0) * q) == (1.0 + r * q) - q * (q * (r + 1.0));
    assert q * (q * (r + 1.0)) >= 0.0;
    var excess := q * (q * (r + 1.0));
    assert p * (1.0 - q) * (1.0 + (r + 1.0) * q) == p * (1.0 + r * q) - p * excess;
  }

  lemma EnoughRounds(q: real, d: real, bound: real) returns (rounds: nat)
    requires q > 0.0 && d >= 0.0 && bound > 0.0
    ensures d <= bound * (rounds as real * q)
  {
    var needed := d / bound / q;
    rounds := needed.Floor + 1;
    assert needed * q == d / bound;
    assert rounds as real * q >= needed * q;
    assert bound * (d / bound) == d;
    assert bound * (rounds as real * q) >= bound * (needed * q);
  }

  lemma LargeEnough(q: real, d: real, bound: real, p: real, r: real, rounds: real)
    requires q > 0.0 && bound > 0.0 && p >= 0.0 && r >= rounds >= 0.0
    requires d <= bound * (rounds * q) && p * (1.0 + r * q) <= 1.0
    ensures p * d <= bound
  {
    assert rounds * q <= r * q;
    assert bound * (rounds * q) <= bound * (1.0 + r * q);
    assert p * d <= p * (bound * (1.0 + r * q));
    assert p * (bound * (1.0 + r * q)) == bound * (p * (1.0 + r * q));
  }

  lemma PowerBelow(q: real, d: real, bound: real, rounds: nat, r: nat)
    requires 0.0 < q < 1.0 && bound > 0.0 && rounds <= r && d <= bound * (rounds as real * q)
    ensures Power(1.0 - q, r) * d <= bound
  {
    PowerVanishes(q, r);
    LargeEnough(q, d, bound, Power(1.0 - q, r), r as real, rounds as real);
  }

  lemma DistanceFallsBelow(part: real, d: real, bound: real) returns (rounds: nat)
    requires 0.0 < part < 1.0 && bound > 0.0 && d >= 0.0
    ensures forall r: nat :: r >= rounds ==> Power(part, r) * d <= bound
  {
    var q := 1.0 - part;
    rounds := EnoughRounds(q, d, bound);
    forall r: nat | r >= rounds
      ensures Power(part, r) * d <= bound
    {
      assert part == 1.0 - q;
      PowerBelow(q, d, bound, rounds, r);
    }
  }

  /** So n clocks converge: below any bound, from some number of rounds on, whatever the orders are. */
  lemma ClocksConverge(x: seq<real>, n: nat, bound: real) returns (rounds: nat)
    requires |x| == n > 1 && bound > 0.0
    ensures forall orders :: FullOrders(orders, n) && |orders| >= rounds ==> Close(Rounds(x, orders), bound)
  {
    var top, bottom := Extremes(x);
    rounds := DistanceVanishes(x, n, x[top] - x[bottom], bound);
  }

  lemma DistanceVanishes(x: seq<real>, n: nat, d: real, bound: real) returns (rounds: nat)
    requires |x| == n > 1 && bound > 0.0 && d >= 0.0 && Close(x, d)
    ensures forall orders :: FullOrders(orders, n) && |orders| >= rounds ==> Close(Rounds(x, orders), bound)
  {
    ShrinkIsProper(n);
    rounds := DistanceFallsBelow(1.0 - Shrink(n), d, bound);
    forall orders | FullOrders(orders, n) && |orders| >= rounds
      ensures Close(Rounds(x, orders), bound)
    {
      var e := RoundsCloseIn(x, orders, n, d);
      CloserIsClose(Rounds(x, orders), e, bound);
    }
  }
}
