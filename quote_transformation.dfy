/** Unit conversions of strikes, prices and quotes (python/qproc/internal/quote_transformation.py).
    A strike is a plain strike K, a forward moneyness K/F or a log-moneyness log(K/F); a price
    is a Black volatility, a total variance vol²·T, a discounted call price, or a call price
    normalized by the zero-strike call value DF·F. Every conversion goes through the plain
    strike and the call price.

    Black's formula, its inverse and the transcendental functions are foreign numerics: they
    are parameters here, and their properties enter only as hypotheses of the lemmas that need
    them. */
module QuoteTransformation {
  import opened Common
  import opened Sorting
  import opened Arithmetic
  import opened QuoteStructures

  /** The foreign numerics the conversions call: `np.exp`, `np.log`, `np.sqrt`,
      `discounted_black(forward, strike, vol, expiry, discount_factor)` for a call, and
      `implied_vol_for_discounted_option(price, forward, strike, expiry, discount_factor)`. */
  datatype Numerics = Numerics(
    exp: real -> real,
    log: real -> real,
    sqrt: real -> real,
    discountedBlack: (real, Strike, real, real, real) -> real,
    impliedVol: (real, real, Strike, real, real) -> real)

  /** `log` undoes `exp`, and `exp` undoes `log` on the positive numbers. */
  ghost predicate ExpLogInverse(nm: Numerics) {
    && (forall x :: nm.log(nm.exp(x)) == x)
    && (forall y :: y > 0.0 ==> nm.exp(nm.log(y)) == y)
  }

  /** `sqrt` is the non-negative square root on the non-negative numbers. */
  ghost predicate SqrtIsRoot(nm: Numerics) {
    forall x :: x >= 0.0 ==> nm.sqrt(x) >= 0.0 && nm.sqrt(x) * nm.sqrt(x) == x
  }

  /** The implied-volatility solver recovers every positive volatility from its Black price. */
  ghost predicate ImpliedVolInvertsBlack(nm: Numerics) {
    forall f, k, v, t, df :: v > 0.0 && t > 0.0 ==> nm.impliedVol(nm.discountedBlack(f, k, v, t, df), f, k, t, df) == v
  }

  // ---------------------------------------------------------------------------------------
  // Strikes

  /** The plain strike of a strike quoted in `unit`. */
  function ToPlainStrike(k: real, unit: StrikeUnit, forward: real, nm: Numerics): real {
    match unit
    case PlainStrike => k
    case Moneyness => k * forward
    case LogMoneyness => nm.exp(k) * forward
  }

  /** A plain strike expressed in `unit`. */
  function FromPlainStrike(s: real, unit: StrikeUnit, forward: real, nm: Numerics): real
    requires unit != PlainStrike ==> forward != 0.0
  {
    match unit
    case PlainStrike => s
    case Moneyness => s / forward
    case LogMoneyness => nm.log(s / forward)
  }

  /** A conversion into a moneyness unit divides by the forward. */
  predicate StrikeConvertible(unit: StrikeUnit, target: StrikeUnit, forward: real) {
    unit != target && target != PlainStrike ==> forward != 0.0
  }

  /** `transform_strike`: the input unchanged when the units agree; otherwise through the plain
      strike. A moneyness result is the number that the forward scales back to the strike. */
  function TransformStrike(k: real, unit: StrikeUnit, target: StrikeUnit, forward: real, nm: Numerics): (r: real)
    requires StrikeConvertible(unit, target, forward)
    ensures unit == target ==> r == k
    ensures unit != target && target == PlainStrike ==> r == ToPlainStrike(k, unit, forward, nm)
    ensures unit != target && target == Moneyness ==> r * forward == ToPlainStrike(k, unit, forward, nm)
  {
    if unit == target then k
    else
      var s := ToPlainStrike(k, unit, forward, nm);
      FromPlainScalesBack(s, target, forward, nm);
      FromPlainStrike(s, target, forward, nm)
  }

  lemma FromPlainScalesBack(s: real, unit: StrikeUnit, forward: real, nm: Numerics)
    requires unit != PlainStrike ==> forward != 0.0
    ensures unit == Moneyness ==> FromPlainStrike(s, unit, forward, nm) * forward == s
  {
    if unit == Moneyness {
      DivMul(s, forward);
    }
  }

  /** Strike to moneyness and back, or moneyness to strike and back, is the identity whenever
      the forward is not zero. */
  lemma MoneynessRoundTrip(k: real, forward: real, nm: Numerics)
    requires forward != 0.0
    ensures TransformStrike(TransformStrike(k, PlainStrike, Moneyness, forward, nm), Moneyness, PlainStrike, forward, nm) == k
    ensures TransformStrike(TransformStrike(k, Moneyness, PlainStrike, forward, nm), PlainStrike, Moneyness, forward, nm) == k
  {
    DivMul(k * forward, forward);
    MulCancels(k, (k * forward) / forward, forward);
  }

  /** Multiplication by a non-zero number is injective. */
  lemma MulCancels(a: real, b: real, d: real)
    requires d != 0.0 && a * d == b * d
    ensures a == b
  {
    assert (a - b) * d == 0.0;
  }

  /** Strike to log-moneyness and back is the identity for a positive strike and forward, and
      log-moneyness to strike and back is the identity for every forward that is not zero,
      provided `exp` and `log` are inverse to each other. */
  lemma LogMoneynessRoundTrip(k: real, x: real, forward: real, nm: Numerics)
    requires ExpLogInverse(nm) && forward != 0.0
    ensures k > 0.0 && forward > 0.0 ==>
              TransformStrike(TransformStrike(k, PlainStrike, LogMoneyness, forward, nm), LogMoneyness, PlainStrike, forward, nm) == k
    ensures TransformStrike(TransformStrike(x, LogMoneyness, PlainStrike, forward, nm), PlainStrike, LogMoneyness, forward, nm) == x
  {
    if k > 0.0 && forward > 0.0 {
      LogMoneynessOfStrike(k, forward, nm);
    }
    LogMoneynessOfExp(x, forward, nm);
  }

  lemma LogMoneynessOfStrike(k: real, forward: real, nm: Numerics)
    requires ExpLogInverse(nm) && k > 0.0 && forward > 0.0
    ensures TransformStrike(TransformStrike(k, PlainStrike, LogMoneyness, forward, nm), LogMoneyness, PlainStrike, forward, nm) == k
  {
    var ratio := k / forward;
    DivMul(k, forward);
    assert ratio > 0.0 by {
      DivAtLeast(k, forward, 0.0);
      if ratio == 0.0 {
        assert false;
      }
    }
    var m := nm.log(ratio);
    assert TransformStrike(k, PlainStrike, LogMoneyness, forward, nm) == m;
    assert nm.exp(m) == ratio;
    assert TransformStrike(m, LogMoneyness, PlainStrike, forward, nm) == ratio * forward;
  }

  lemma LogMoneynessOfExp(x: real, forward: real, nm: Numerics)
    requires ExpLogInverse(nm) && forward != 0.0
    ensures TransformStrike(TransformStrike(x, LogMoneyness, PlainStrike, forward, nm), PlainStrike, LogMoneyness, forward, nm) == x
  {
    var e := nm.exp(x);
    assert TransformStrike(x, LogMoneyness, PlainStrike, forward, nm) == e * forward;
    DivMul(e * forward, forward);
    MulCancels(e, (e * forward) / forward, forward);
    assert TransformStrike(e * forward, PlainStrike, LogMoneyness, forward, nm) == nm.log(e);
    assert nm.log(nm.exp(x)) == x;
  }

  /** Dividing by a positive forward keeps the strict order of strikes. */
  lemma DivKeepsOrder(a: real, b: real, forward: real)
    requires forward > 0.0
    ensures a < b <==> a / forward < b / forward
  {
    var x, y := a / forward, b / forward;
    DivMul(a, forward);
    DivMul(b, forward);
    if a < b && x >= y {
      MulLeq(y, x, forward);
    }
    if a >= b && x < y {
      MulLeq(x, y, forward);
      MulLeq(b, a, 1.0);
    }
  }

  /** With a positive forward, every conversion between plain strikes and moneyness keeps the
      strict order of strikes. */
  lemma TransformStrikeKeepsOrder(a: real, b: real, unit: StrikeUnit, target: StrikeUnit, forward: real, nm: Numerics)
    requires unit != LogMoneyness && target != LogMoneyness && forward > 0.0
    ensures a < b <==> TransformStrike(a, unit, target, forward, nm) < TransformStrike(b, unit, target, forward, nm)
  {
    if unit != target {
      if unit == Moneyness {
        if a < b {
          MulLeq(a, b, forward);
          assert a * forward != b * forward by {
            if a * forward == b * forward {
              MulCancels(a, b, forward);
            }
          }
        } else {
          MulLeq(b, a, forward);
        }
      } else {
        DivKeepsOrder(a, b, forward);
      }
    }
  }

  // ---------------------------------------------------------------------------------------
  // Prices

  /** The divisions a price conversion makes: by the expiry out of a total variance, by DF·F
      into a normalized call. */
  predicate PriceConvertible(unit: PriceUnit, target: PriceUnit, expiry: real, discountFactor: real, forward: real) {
    unit != target ==>
      && (unit == TotalVar ==> expiry != 0.0)
      && (target == NormalizedCall ==> discountFactor * forward != 0.0)
  }

  /** The discounted call price of a price quoted in `unit`. */
  function ToCall(s: Strike, price: real, unit: PriceUnit, expiry: real, discountFactor: real, forward: real, nm: Numerics): real
    requires unit == TotalVar ==> expiry != 0.0
  {
    match unit
    case Call => price
    case Vol => nm.discountedBlack(forward, s, price, expiry, discountFactor)
    case TotalVar => nm.discountedBlack(forward, s, nm.sqrt(price / expiry), expiry, discountFactor)
    case NormalizedCall => price * (discountFactor * forward)
  }

  /** A discounted call price expressed in `target`. */
  function FromCall(s: Strike, call: real, target: PriceUnit, expiry: real, discountFactor: real, forward: real, nm: Numerics): real
    requires target == NormalizedCall ==> discountFactor * forward != 0.0
  {
    match target
    case Call => call
    case Vol => nm.impliedVol(call, forward, s, expiry, discountFactor)
    case TotalVar =>
      var vol := nm.impliedVol(call, forward, s, expiry, discountFactor);
      vol * vol * expiry
    case NormalizedCall => call / (discountFactor * forward)
  }

  /** `_get_single_price`: the price unchanged when the units agree; otherwise through the
      discounted call price. A normalized result is the number the zero-strike call value
      scales back to that call price. */
  function SinglePrice(s: Strike, price: real, unit: PriceUnit, target: PriceUnit,
                       expiry: real, discountFactor: real, forward: real, nm: Numerics): (r: real)
    requires PriceConvertible(unit, target, expiry, discountFactor, forward)
    ensures unit == target ==> r == price
    ensures unit != target && target == Call ==> r == ToCall(s, price, unit, expiry, discountFactor, forward, nm)
    ensures unit != target && target == NormalizedCall ==>
              r * (discountFactor * forward) == ToCall(s, price, unit, expiry, discountFactor, forward, nm)
  {
    if unit == target then price
    else
      var call := ToCall(s, price, unit, expiry, discountFactor, forward, nm);
      if target == NormalizedCall then
        DivMul(call, discountFactor * forward);
        FromCall(s, call, target, expiry, discountFactor, forward, nm)
      else
        FromCall(s, call, target, expiry, discountFactor, forward, nm)
  }

  /** Call to normalized call and back, and normalized call to call and back, are the identity
      whenever DF·F is not zero; the strike plays no part. */
  lemma NormalizedCallRoundTrip(s: Strike, price: real, expiry: real, discountFactor: real, forward: real, nm: Numerics)
    requires discountFactor * forward != 0.0
    ensures SinglePrice(s, SinglePrice(s, price, Call, NormalizedCall, expiry, discountFactor, forward, nm),
                        NormalizedCall, Call, expiry, discountFactor, forward, nm) == price
    ensures SinglePrice(s, SinglePrice(s, price, NormalizedCall, Call, expiry, discountFactor, forward, nm),
                        Call, NormalizedCall, expiry, discountFactor, forward, nm) == price
  {
    CallThroughNormalized(s, price, expiry, discountFactor, forward, nm);
    NormalizedThroughCall(s, price, expiry, discountFactor, forward, nm);
  }

  lemma CallThroughNormalized(s: Strike, price: real, expiry: real, discountFactor: real, forward: real, nm: Numerics)
    requires discountFactor * forward != 0.0
    ensures SinglePrice(s, SinglePrice(s, price, Call, NormalizedCall, expiry, discountFactor, forward, nm),
                        NormalizedCall, Call, expiry, discountFactor, forward, nm) == price
  {
    var z := discountFactor * forward;
    var n := SinglePrice(s, price, Call, NormalizedCall, expiry, discountFactor, forward, nm);
    assert n == price / z;
    DivMul(price, z);
  }

  lemma NormalizedThroughCall(s: Strike, price: real, expiry: real, discountFactor: real, forward: real, nm: Numerics)
    requires discountFactor * forward != 0.0
    ensures SinglePrice(s, SinglePrice(s, price, NormalizedCall, Call, expiry, discountFactor, forward, nm),
                        Call, NormalizedCall, expiry, discountFactor, forward, nm) == price
  {
    var z := discountFactor * forward;
    var c := SinglePrice(s, price, NormalizedCall, Call, expiry, discountFactor, forward, nm);
    assert c == price * z;
    var back := SinglePrice(s, c, Call, NormalizedCall, expiry, discountFactor, forward, nm);
    assert back * z == c;
    MulCancels(back, price, z);
  }

  /** Volatility to call price and back, and total variance to call price and back, are the
      identity for a positive volatility (variance) and expiry, provided the implied-volatility
      solver inverts Black's formula and `sqrt` is the square root. */
  lemma VolatilityRoundTrip(s: Strike, vol: real, variance: real, expiry: real, discountFactor: real, forward: real, nm: Numerics)
    requires ImpliedVolInvertsBlack(nm) && SqrtIsRoot(nm)
    requires vol > 0.0 && variance > 0.0 && expiry > 0.0
    ensures SinglePrice(s, SinglePrice(s, vol, Vol, Call, expiry, discountFactor, forward, nm),
                        Call, Vol, expiry, discountFactor, forward, nm) == vol
    ensures SinglePrice(s, SinglePrice(s, variance, TotalVar, Call, expiry, discountFactor, forward, nm),
                        Call, TotalVar, expiry, discountFactor, forward, nm) == variance
  {
    assert nm.impliedVol(nm.discountedBlack(forward, s, vol, expiry, discountFactor), forward, s, expiry, discountFactor) == vol;
    var ratio := variance / expiry;
    DivMul(variance, expiry);
    DivAtLeast(variance, expiry, 0.0);
    var root := nm.sqrt(ratio);
    assert root >= 0.0 && root * root == ratio;
    if root == 0.0 {
      assert false;
    }
    assert nm.impliedVol(nm.discountedBlack(forward, s, root, expiry, discountFactor), forward, s, expiry, discountFactor) == root;
  }

  /** `transform_price` on a scalar: the strike is first made a plain strike. */
  function TransformPrice(k: real, strikeUnit: StrikeUnit, price: real, unit: PriceUnit, target: PriceUnit,
                          expiry: real, discountFactor: real, forward: real, nm: Numerics): (r: real)
    requires PriceConvertible(unit, target, expiry, discountFactor, forward)
    ensures unit == target ==> r == price
    ensures r == SinglePrice(Finite(TransformStrike(k, strikeUnit, PlainStrike, forward, nm)), price, unit, target,
                             expiry, discountFactor, forward, nm)
  {
    var actual := TransformStrike(k, strikeUnit, PlainStrike, forward, nm);
    SinglePrice(Finite(actual), price, unit, target, expiry, discountFactor, forward, nm)
  }

  /** `transform_price` on arrays: one price per strike, filled in strike order into a fresh
      array; a price array shorter than the strike array raises IndexError. */
  method TransformPrices(strikes: seq<real>, strikeUnit: StrikeUnit, prices: seq<real>, unit: PriceUnit, target: PriceUnit,
                         expiry: real, discountFactor: real, forward: real, nm: Numerics) returns (r: Result<array<real>>)
    requires PriceConvertible(unit, target, expiry, discountFactor, forward)
    ensures r.Err? <==> |prices| < |strikes|
    ensures r.Err? ==> r.error == IndexOutOfRange
    ensures r.Ok? ==> fresh(r.value) && r.value.Length == |strikes|
    ensures r.Ok? ==> forall i :: 0 <= i < |strikes| ==>
              r.value[i] == TransformPrice(strikes[i], strikeUnit, prices[i], unit, target, expiry, discountFactor, forward, nm)
  {
    var output := new real[|strikes|];
    for i := 0 to |strikes|
      invariant i <= |prices|
      invariant forall j :: 0 <= j < i ==>
                  output[j] == TransformPrice(strikes[j], strikeUnit, prices[j], unit, target, expiry, discountFactor, forward, nm)
    {
      if i >= |prices| {
        return Err(IndexOutOfRange);
      }
      output[i] := TransformPrice(strikes[i], strikeUnit, prices[i], unit, target, expiry, discountFactor, forward, nm);
    }
    r := Ok(output);
  }

  // ---------------------------------------------------------------------------------------
  // Quotes

  /** A quote's strike converted; the synthetic strike at +infinity stays there. */
  function TransformQuoteStrike(k: Strike, unit: StrikeUnit, target: StrikeUnit, forward: real, nm: Numerics): (r: Strike)
    requires StrikeConvertible(unit, target, forward)
    ensures r.Infinity? <==> k.Infinity?
    ensures unit == target ==> r == k
    ensures k.Finite? ==> r == Finite(TransformStrike(k.value, unit, target, forward, nm))
  {
    match k
    case Infinity => Infinity
    case Finite(x) => Finite(TransformStrike(x, unit, target, forward, nm))
  }

  /** What a quote conversion divides by, unless both pairs of units already agree. */
  predicate QuoteConvertible(unitP: PriceUnit, targetP: PriceUnit, unitS: StrikeUnit, targetS: StrikeUnit,
                             expiry: real, discountFactor: real, forward: real) {
    (unitP == targetP && unitS == targetS) ||
    (StrikeConvertible(PlainStrike, targetS, forward) && PriceConvertible(unitP, targetP, expiry, discountFactor, forward))
  }

  /** `_update_price_unit`: bid and ask are each converted at the quote's plain strike; nothing
      else changes. */
  function UpdatePriceUnit(q: Quote, actual: Strike, unit: PriceUnit, target: PriceUnit,
                           expiry: real, discountFactor: real, forward: real, nm: Numerics): (r: Quote)
    requires PriceConvertible(unit, target, expiry, discountFactor, forward)
    ensures r.strike == q.strike && r.liqProxy == q.liqProxy
    ensures unit == target ==> r == q
    ensures r.bid == SinglePrice(actual, q.bid, unit, target, expiry, discountFactor, forward, nm)
    ensures r.ask == SinglePrice(actual, q.ask, unit, target, expiry, discountFactor, forward, nm)
    ensures unit != target && target == NormalizedCall ==>
              && r.bid * (discountFactor * forward) == ToCall(actual, q.bid, unit, expiry, discountFactor, forward, nm)
              && r.ask * (discountFactor * forward) == ToCall(actual, q.ask, unit, expiry, discountFactor, forward, nm)
  {
    q.(bid := SinglePrice(actual, q.bid, unit, target, expiry, discountFactor, forward, nm),
       ask := SinglePrice(actual, q.ask, unit, target, expiry, discountFactor, forward, nm))
  }

  /** `transform_quote`: the quote itself when both pairs of units agree; otherwise the strike
      goes to the plain strike and on to the target unit, and bid and ask are converted
      independently at the plain strike. The liquidity proxy is kept. */
  function TransformQuote(q: Quote, unitP: PriceUnit, targetP: PriceUnit, unitS: StrikeUnit, targetS: StrikeUnit,
                          expiry: real, discountFactor: real, forward: real, nm: Numerics): (r: Quote)
    requires QuoteConvertible(unitP, targetP, unitS, targetS, expiry, discountFactor, forward)
    ensures unitP == targetP && unitS == targetS ==> r == q
    ensures r.liqProxy == q.liqProxy
    ensures r.strike.Infinity? <==> q.strike.Infinity?
    ensures !(unitP == targetP && unitS == targetS) ==>
              r.strike == TransformQuoteStrike(TransformQuoteStrike(q.strike, unitS, PlainStrike, forward, nm),
                                               PlainStrike, targetS, forward, nm)
    ensures var actual := TransformQuoteStrike(q.strike, unitS, PlainStrike, forward, nm);
            && r.bid == SinglePrice(actual, q.bid, unitP, targetP, expiry, discountFactor, forward, nm)
            && r.ask == SinglePrice(actual, q.ask, unitP, targetP, expiry, discountFactor, forward, nm)
  {
    if unitP == targetP && unitS == targetS then q
    else
      var actual := TransformQuoteStrike(q.strike, unitS, PlainStrike, forward, nm);
      var moved := q.(strike := TransformQuoteStrike(actual, PlainStrike, targetS, forward, nm));
      UpdatePriceUnit(moved, actual, unitP, targetP, expiry, discountFactor, forward, nm)
  }

  /** Converting a quote of calls at plain strikes to normalized calls at moneyness and back
      gives the quote back, whenever the forward and the discount factor are not zero. */
  lemma TransformQuoteRoundTrip(q: Quote, expiry: real, discountFactor: real, forward: real, nm: Numerics)
    requires forward != 0.0 && discountFactor != 0.0
    ensures discountFactor * forward != 0.0
    ensures var there := TransformQuote(q, Call, NormalizedCall, PlainStrike, Moneyness, expiry, discountFactor, forward, nm);
            TransformQuote(there, NormalizedCall, Call, Moneyness, PlainStrike, expiry, discountFactor, forward, nm) == q
  {
    var z := discountFactor * forward;
    assert z != 0.0 by {
      if z == 0.0 {
        MulCancels(discountFactor, 0.0, forward);
      }
    }
    var there := TransformQuote(q, Call, NormalizedCall, PlainStrike, Moneyness, expiry, discountFactor, forward, nm);
    var back := TransformQuote(there, NormalizedCall, Call, Moneyness, PlainStrike, expiry, discountFactor, forward, nm);
    if q.strike.Finite? {
      MoneynessRoundTrip(q.strike.value, forward, nm);
    }
    assert back.strike == q.strike;
    NormalizedCallRoundTrip(q.strike, q.bid, expiry, discountFactor, forward, nm);
    NormalizedCallRoundTrip(q.strike, q.ask, expiry, discountFactor, forward, nm);
    assert TransformQuoteStrike(there.strike, Moneyness, PlainStrike, forward, nm) == q.strike;
  }

  /** With a positive forward, converting two quotes between plain strikes and moneyness keeps
      their order by strike. */
  lemma TransformQuoteKeepsOrder(a: Quote, b: Quote, unitP: PriceUnit, targetP: PriceUnit, unitS: StrikeUnit, targetS: StrikeUnit,
                                 expiry: real, discountFactor: real, forward: real, nm: Numerics)
    requires QuoteConvertible(unitP, targetP, unitS, targetS, expiry, discountFactor, forward)
    requires unitS != LogMoneyness && targetS != LogMoneyness && forward > 0.0
    ensures QuoteLess(a, b) <==>
              QuoteLess(TransformQuote(a, unitP, targetP, unitS, targetS, expiry, discountFactor, forward, nm),
                        TransformQuote(b, unitP, targetP, unitS, targetS, expiry, discountFactor, forward, nm))
  {
    if a.strike.Finite? && b.strike.Finite? && !(unitP == targetP && unitS == targetS) {
      var x, y := a.strike.value, b.strike.value;
      TransformStrikeKeepsOrder(x, y, unitS, PlainStrike, forward, nm);
      var x', y' := TransformStrike(x, unitS, PlainStrike, forward, nm), TransformStrike(y, unitS, PlainStrike, forward, nm);
      TransformStrikeKeepsOrder(x', y', PlainStrike, targetS, forward, nm);
    }
  }

  /** The quotes of one slice, each converted with the slice's expiry, forward and discount
      factor. */
  function TransformQuotes(qs: seq<Quote>, unitP: PriceUnit, targetP: PriceUnit, unitS: StrikeUnit, targetS: StrikeUnit,
                           expiry: real, discountFactor: real, forward: real, nm: Numerics): (r: seq<Quote>)
    requires QuoteConvertible(unitP, targetP, unitS, targetS, expiry, discountFactor, forward)
    ensures |r| == |qs|
    ensures forall i :: 0 <= i < |qs| ==>
              r[i] == TransformQuote(qs[i], unitP, targetP, unitS, targetS, expiry, discountFactor, forward, nm)
  {
    seq(|qs|, i requires 0 <= i < |qs| => TransformQuote(qs[i], unitP, targetP, unitS, targetS, expiry, discountFactor, forward, nm))
  }

  /** Converting a slice sorted by strike between plain strikes and moneyness, with a positive
      forward, leaves it sorted by strike: the filter can work on the converted slice as it is. */
  lemma TransformQuotesKeepsSorted(qs: seq<Quote>, unitP: PriceUnit, targetP: PriceUnit, unitS: StrikeUnit, targetS: StrikeUnit,
                                   expiry: real, discountFactor: real, forward: real, nm: Numerics)
    requires QuoteConvertible(unitP, targetP, unitS, targetS, expiry, discountFactor, forward)
    requires unitS != LogMoneyness && targetS != LogMoneyness && forward > 0.0
    requires SortedBy(qs, QuoteLess)
    ensures SortedBy(TransformQuotes(qs, unitP, targetP, unitS, targetS, expiry, discountFactor, forward, nm), QuoteLess)
  {
    var r := TransformQuotes(qs, unitP, targetP, unitS, targetS, expiry, discountFactor, forward, nm);
    forall i, j | 0 <= i < j < |r|
      ensures !QuoteLess(r[j], r[i])
    {
      TransformQuoteKeepsOrder(qs[j], qs[i], unitP, targetP, unitS, targetS, expiry, discountFactor, forward, nm);
    }
  }
}
