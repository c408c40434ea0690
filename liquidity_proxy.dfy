/** The default liquidity proxy (python/qproc/internal/liquidity_proxy_computation.py): quotes
    struck close to the forward of their expiry count as the most liquid. The forward curve is
    not part of the model; it is a parameter. */
module LiquidityProxies {
  import opened Common
  import opened Arithmetic

  /** The proxy of one quote: `1 / (1 + |K - F|)`. It never exceeds 1, reaches 1 exactly at the
      money, and stays positive however far the strike lies from the forward. */
  function LiquidityProxy(strike: real, forward: real): (p: real)
    ensures 0.0 < p <= 1.0
    ensures p == 1.0 <==> strike == forward
  {
    var d := 1.0 + Abs(strike - forward);
    DivAtMost(1.0, d, 1.0);
    DivBelowOne(d);
    1.0 / d
  }

  /** 1 / d < 1 for every d > 1. */
  lemma DivBelowOne(d: real)
    requires d >= 1.0
    ensures d > 1.0 ==> 1.0 / d < 1.0
  {
    DivMul(1.0, d);
    if d > 1.0 && 1.0 / d >= 1.0 {
      MulLeq(1.0, 1.0 / d, d);
    }
  }

  /** The proxy determines the distance to the forward: `|K - F| = 1/p - 1`. */
  lemma DistanceFromProxy(strike: real, forward: real)
    ensures Abs(strike - forward) == 1.0 / LiquidityProxy(strike, forward) - 1.0
  {
    var d := 1.0 + Abs(strike - forward);
    DivMul(1.0, d);
    assert 1.0 / (1.0 / d) == d;
  }

  /** A larger proxy means a strictly smaller distance between strike and forward, and
      conversely, whatever the two forwards are. Sorting by proxy descending therefore puts the
      quotes nearest to their forward first. */
  lemma ProxyOrdersByDistance(k1: real, f1: real, k2: real, f2: real)
    ensures LiquidityProxy(k1, f1) > LiquidityProxy(k2, f2) <==> Abs(k1 - f1) < Abs(k2 - f2)
  {
    var p1, p2 := LiquidityProxy(k1, f1), LiquidityProxy(k2, f2);
    DistanceFromProxy(k1, f1);
    DistanceFromProxy(k2, f2);
    if p1 > p2 {
      ReciprocalReverses(p2, p1);
    } else if p1 < p2 {
      ReciprocalReverses(p1, p2);
    }
  }

  /** Taking reciprocals reverses the strict order of positive numbers. */
  lemma ReciprocalReverses(a: real, b: real)
    requires 0.0 < a < b
    ensures 1.0 / b < 1.0 / a
  {
    DivMul(1.0, a);
    DivMul(1.0, b);
    if 1.0 / b >= 1.0 / a {
      MulLeq(1.0 / a, 1.0 / b, b);
      MulLeq(a, b, 1.0 / a);
    }
  }

  /** `compute_moneyness_based_liquidity_proxies`: one proxy per strike, each measured against
      the forward at that quote's expiry. */
  function ComputeLiquidityProxies(strikes: seq<real>, expiries: seq<real>, forward: real -> real): (r: seq<real>)
    requires |strikes| == |expiries|
    ensures |r| == |strikes|
    ensures forall i :: 0 <= i < |r| ==> 0.0 < r[i] <= 1.0
    ensures forall i :: 0 <= i < |r| ==> (r[i] == 1.0 <==> strikes[i] == forward(expiries[i]))
    ensures forall i :: 0 <= i < |r| ==> r[i] == LiquidityProxy(strikes[i], forward(expiries[i]))
  {
    seq(|strikes|, i requires 0 <= i < |strikes| => LiquidityProxy(strikes[i], forward(expiries[i])))
  }

  /** Within one expiry, a list ordered by proxy descending is ordered by distance to the forward
      ascending. */
  lemma DescendingProxiesAscendingDistance(strikes: seq<real>, expiry: real, forward: real -> real, i: int, j: int)
    requires 0 <= i < |strikes| && 0 <= j < |strikes|
    ensures var r := ComputeLiquidityProxies(strikes, seq(|strikes|, _ => expiry), forward);
            var f := forward(expiry);
            r[i] >= r[j] <==> Abs(strikes[i] - f) <= Abs(strikes[j] - f)
  {
    var f := forward(expiry);
    ProxyOrdersByDistance(strikes[j], f, strikes[i], f);
  }
}
