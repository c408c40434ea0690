/** The no-arbitrage bounds of the original strike filter
    (python/filter_implementation/quote_slice.py): the arbitrage-consistent set of a slice holds
    discounted call quotes sorted by strike, starting with the synthetic quote at strike 0 worth
    the discounted forward; a new strike's premium must lie between a lower bound extended from
    the secants of the nearest quotes and an upper bound interpolated between its neighbours. */
module FilterSliceBounds {
  import opened Common
  import opened Sorting
  import opened Arithmetic
  import opened FilterQuote

  /** `ALPHA` of filter_constants.py: where an out-of-bounds premium is placed between its bounds. */
  const Alpha: real := 0.0

  /** `DUMMY_FIELD_VALUE`: the placeholder of the fields a synthetic quote does not need. */
  const DummyFieldValue: real := -1.0

  /** The market data a slice is built with, and the volatility solver its quotes are re-implied
      with when adjusted. */
  datatype SliceTerms = SliceTerms(discountFactor: real, forward: real, expiry: real, volSolver: VolSolver)

  /** `compute_quote0`: the call struck at 0 is worth the discounted forward. */
  function Quote0(t: SliceTerms): (q: Quote)
    requires t.forward != 0.0
    ensures q.strike == 0.0 && q.moneyness == 0.0
    ensures q.callPremium == t.discountFactor * t.forward
  {
    NewQuote(0.0, t.expiry, DummyFieldValue, t.discountFactor * t.forward, DummyFieldValue, t.forward)
  }

  /** `compute_theoretical_maximum_price`: no call is worth more than the strike-0 call. */
  function TheoreticalMaximumPrice(t: SliceTerms): (p: real)
    requires t.forward != 0.0
    ensures p == Quote0(t).callPremium
  {
    Quote0(t).callPremium
  }

  /** `compute_theoretical_minimum_price`: the discounted intrinsic value. */
  function TheoreticalMinimumPrice(t: SliceTerms, strike: real): real {
    t.discountFactor * Max(t.forward - strike, 0.0)
  }

  /** For a non-negative discount factor, a positive forward and a non-negative strike the
      theoretical bounds are ordered, and the minimum is the larger of 0 and the discounted
      forward payoff DF·(F - K). */
  lemma TheoreticalBoundsOrdered(t: SliceTerms, strike: real)
    ensures t.discountFactor >= 0.0 && t.forward > 0.0 && strike >= 0.0 ==>
              && 0.0 <= TheoreticalMinimumPrice(t, strike) <= TheoreticalMaximumPrice(t)
              && TheoreticalMinimumPrice(t, strike) >= t.discountFactor * (t.forward - strike)
  {
    if t.discountFactor >= 0.0 && t.forward > 0.0 && strike >= 0.0 {
      MulLeq(Max(t.forward - strike, 0.0), t.forward, t.discountFactor);
      MulLeq(0.0, Max(t.forward - strike, 0.0), t.discountFactor);
      MulLeq(t.forward - strike, Max(t.forward - strike, 0.0), t.discountFactor);
    }
  }

  /** The shape of `arbitrage_consistent_strike_sorted_set` once filtering has begun: the
      strike-0 quote first, at least one more quote, strikes non-decreasing (`insort_left`
      puts a quote at a strike the set holds in front of the quotes already there). */
  ghost predicate Shaped(t: SliceTerms, s: seq<Quote>) {
    && t.forward != 0.0
    && |s| >= 2
    && s[0] == Quote0(t)
    && SortedBy(s, QuoteLess)
  }

  /** Secant slope between two quotes at distinct strikes. */
  function DifferenceQuotient(a: Quote, b: Quote): real
    requires a.strike != b.strike
  {
    (a.callPremium - b.callPremium) / (a.strike - b.strike)
  }

  /** `get_left_adjacent_quote` (`find_lt`): the position of the nearest admitted quote strictly
      left of `q`. `find_lt` raises ValueError when there is none, which on a set starting at
      strike 0 is exactly when the strike of `q` is not positive. */
  function LeftAdjacent(s: seq<Quote>, q: Quote): (r: Result<nat>)
    ensures r.Err? ==> r.error == LookupFailed
    ensures r.Ok? ==> r.value < |s| && s[r.value].strike < q.strike
    ensures r.Ok? && r.value + 1 < |s| ==> s[r.value + 1].strike >= q.strike
    ensures |s| > 0 && s[0].strike == 0.0 ==> (r.Ok? <==> q.strike > 0.0)
  {
    var i := FindLt(s, q, QuoteLess);
    if i < 0 then Err(LookupFailed) else Ok(i)
  }

  /** `get_right_adjacent_quote` (`find_gt`): the position of the nearest admitted quote
      strictly right of `q`; ValueError when no strike of the set is above that of `q`. */
  function RightAdjacent(s: seq<Quote>, q: Quote): (r: Result<nat>)
    ensures r.Err? ==> r.error == LookupFailed
    ensures r.Err? <==> forall j :: 0 <= j < |s| ==> s[j].strike <= q.strike
    ensures r.Ok? ==> r.value < |s| && s[r.value].strike > q.strike
    ensures r.Ok? ==> forall j :: 0 <= j < r.value ==> s[j].strike <= q.strike
  {
    var i := FindGt(s, q, QuoteLess);
    if i < 0 then Err(LookupFailed) else Ok(i)
  }

  /** `is_enclosed_by_two_points`: some admitted quote lies right of `q`. */
  predicate Enclosed(s: seq<Quote>, q: Quote)
    requires |s| > 0
  {
    q.strike < s[|s| - 1].strike
  }

  /** `are_two_points_left_of_quote`. */
  predicate TwoPointsLeft(s: seq<Quote>, q: Quote)
    requires |s| >= 2
  {
    s[1].strike < q.strike
  }

  /** `are_two_points_right_of_quote`. */
  predicate TwoPointsRight(s: seq<Quote>, q: Quote)
    requires |s| >= 2
  {
    s[|s| - 2].strike > q.strike
  }

  /** No strike of `s` lies strictly between `lo` and `hi`. */
  ghost predicate NoStrikeBetween(s: seq<Quote>, lo: real, hi: real) {
    forall j :: 0 <= j < |s| ==> !(lo < s[j].strike < hi)
  }

  /** Every strike of `s` above `k` is the top strike of `s`. */
  ghost predicate AllAboveAtTop(s: seq<Quote>, k: real)
    requires |s| > 0
  {
    forall j :: 0 <= j < |s| && s[j].strike > k ==> s[j].strike == s[|s| - 1].strike
  }

  /** When the lookups of `compute_lower_bound` raise ValueError: the strike of `q` is not
      positive, or the two-points-left test holds while every quote left of `q` is at strike 0
      (`find_lt` of the nearest one finds nothing), or the two-points-right test holds while
      every quote right of `q` is at the top strike (`find_gt` of the nearest one finds
      nothing). Only a set with repeated strikes gets into the last two. */
  ghost predicate LowerLookupFails(s: seq<Quote>, q: Quote)
    requires |s| >= 2
  {
    || q.strike <= 0.0
    || (TwoPointsLeft(s, q) && NoStrikeBetween(s, 0.0, q.strike))
    || (TwoPointsRight(s, q) && AllAboveAtTop(s, q.strike))
  }

  /** On a sorted set starting at strike 0, the quote `find_lt` finds left of a positive
      strike is at strike 0 exactly when no strike lies between 0 and that strike. */
  lemma LeftNeighbourAtZero(t: SliceTerms, s: seq<Quote>, q: Quote)
    requires Shaped(t, s) && q.strike > 0.0
    ensures var f := LeftAdjacent(s, q).value;
            s[f].strike <= 0.0 <==> NoStrikeBetween(s, 0.0, q.strike)
  {
    var f := LeftAdjacent(s, q).value;
    if s[f].strike <= 0.0 {
      forall j | 0 <= j < |s|
        ensures !(0.0 < s[j].strike < q.strike)
      {
        if j < f {
          assert !QuoteLess(s[f], s[j]);
        } else if j > f + 1 {
          assert !QuoteLess(s[j], s[f + 1]);
        }
      }
    }
  }

  /** On a sorted set, the quote `find_gt` finds right of `q` has nothing right of it exactly
      when every strike above that of `q` is the top strike. */
  lemma RightNeighbourAtTop(t: SliceTerms, s: seq<Quote>, q: Quote)
    requires Shaped(t, s) && TwoPointsRight(s, q)
    ensures RightAdjacent(s, q).Ok?
    ensures var f := RightAdjacent(s, q).value;
            (forall j :: 0 <= j < |s| ==> s[j].strike <= s[f].strike) <==> AllAboveAtTop(s, q.strike)
  {
    var n := |s| - 1;
    assert s[n - 1].strike > q.strike;
    var f := RightAdjacent(s, q).value;
    assert !QuoteLess(s[n], s[f]) by {
      if f < n {
      }
    }
    if forall j :: 0 <= j < |s| ==> s[j].strike <= s[f].strike {
      forall j | 0 <= j < |s| && s[j].strike > q.strike
        ensures s[j].strike == s[n].strike
      {
        assert j >= f;
        if j > f {
          assert !QuoteLess(s[j], s[f]);
        }
      }
    } else {
      var j :| 0 <= j < |s| && s[j].strike > s[f].strike;
      assert !QuoteLess(s[n], s[j]) by {
        if j < n {
        }
      }
    }
  }

  /** `compute_left_difference_quotient`: slope through the two nearest quotes on the left, or
      -DF (the slope of the discounted intrinsic value) when only the strike-0 quote lies left. */
  function LeftDifferenceQuotient(t: SliceTerms, s: seq<Quote>, q: Quote): (r: Result<real>)
    requires Shaped(t, s)
    ensures r.Err? ==> r.error == LookupFailed
    ensures r.Err? <==> TwoPointsLeft(s, q) && NoStrikeBetween(s, 0.0, q.strike)
    ensures !TwoPointsLeft(s, q) ==> r == Ok(-t.discountFactor)
  {
    if TwoPointsLeft(s, q) then
      assert !QuoteLess(s[1], s[0]);
      LeftNeighbourAtZero(t, s, q);
      var first := LeftAdjacent(s, q).value;
      var second :- LeftAdjacent(s, s[first]);
      Ok(DifferenceQuotient(s[first], s[second]))
    else
      Ok(-t.discountFactor)
  }

  /** `compute_right_difference_quotient`: slope through the two nearest quotes on the right,
      or 0 when fewer than two quotes lie right. */
  function RightDifferenceQuotient(t: SliceTerms, s: seq<Quote>, q: Quote): (r: Result<real>)
    requires Shaped(t, s)
    ensures r.Err? ==> r.error == LookupFailed
    ensures r.Err? <==> TwoPointsRight(s, q) && AllAboveAtTop(s, q.strike)
    ensures !TwoPointsRight(s, q) ==> r == Ok(0.0)
  {
    if TwoPointsRight(s, q) then
      RightNeighbourAtTop(t, s, q);
      var first := RightAdjacent(s, q).value;
      var second :- RightAdjacent(s, s[first]);
      Ok(DifferenceQuotient(s[first], s[second]))
    else
      Ok(0.0)
  }

  /** `lower_bound_from_left_difference_quotient`: the left neighbour's premium extended along
      the left difference quotient to `q`'s strike, floored at 0. */
  function LeftCandidate(t: SliceTerms, s: seq<Quote>, q: Quote): (c: Result<real>)
    requires Shaped(t, s)
    ensures c.Err? ==> c.error == LookupFailed
    ensures c.Err? <==> q.strike <= 0.0 || LeftDifferenceQuotient(t, s, q).Err?
    ensures c.Ok? ==> c.value >= 0.0
  {
    var left :- LeftAdjacent(s, q);
    var slope :- LeftDifferenceQuotient(t, s, q);
    Ok(Max(s[left].callPremium + slope * (q.strike - s[left].strike), 0.0))
  }

  /** `lower_bound_from_right_difference_quotient`: the right neighbour's premium extended back
      along the right difference quotient. */
  function RightCandidate(t: SliceTerms, s: seq<Quote>, q: Quote): (c: Result<real>)
    requires Shaped(t, s) && Enclosed(s, q)
    ensures c.Err? ==> c.error == LookupFailed
    ensures c.Err? <==> RightDifferenceQuotient(t, s, q).Err?
  {
    var right := RightAdjacent(s, q).value;
    var slope :- RightDifferenceQuotient(t, s, q);
    Ok(s[right].callPremium - slope * (s[right].strike - q.strike))
  }

  /** `compute_lower_bound`: the left candidate, raised to the right candidate when some quote
      lies right of `q`; a ValueError of a lookup ends it. */
  function LowerBound(t: SliceTerms, s: seq<Quote>, q: Quote): (lb: Result<real>)
    requires Shaped(t, s)
    ensures lb.Err? ==> lb.error == LookupFailed
    ensures lb.Err? <==> LowerLookupFails(s, q)
    ensures lb.Ok? ==> LeftCandidate(t, s, q).Ok? && lb.value >= LeftCandidate(t, s, q).value >= 0.0
    ensures lb.Ok? && Enclosed(s, q) ==> RightCandidate(t, s, q).Ok? && lb.value >= RightCandidate(t, s, q).value
    ensures lb.Ok? ==> lb.value == LeftCandidate(t, s, q).value
                       || (Enclosed(s, q) && lb.value == RightCandidate(t, s, q).value)
  {
    assert !QuoteLess(s[|s| - 1], s[|s| - 2]);
    var left :- LeftCandidate(t, s, q);
    if Enclosed(s, q) then
      var right :- RightCandidate(t, s, q);
      Ok(Max(left, right))
    else
      Ok(left)
  }

  /** The linear interpolation at strike `k` between two quotes at distinct strikes. */
  function Chord(left: Quote, k: real, right: Quote): real
    requires left.strike != right.strike
  {
    ((right.strike - k) * left.callPremium + (k - left.strike) * right.callPremium) / (right.strike - left.strike)
  }

  /** `compute_upper_bound`: the chord between the two neighbours, or the left neighbour's
      premium when no quote lies right. Only the left lookup can fail: a strike that is not
      positive has no quote left of it. */
  function UpperBound(t: SliceTerms, s: seq<Quote>, q: Quote): (ub: Result<real>)
    requires Shaped(t, s)
    ensures ub.Err? ==> ub.error == LookupFailed
    ensures ub.Err? <==> q.strike <= 0.0
  {
    var left :- LeftAdjacent(s, q);
    if Enclosed(s, q) then
      var right := RightAdjacent(s, q).value;
      Ok(Chord(s[left], q.strike, s[right]))
    else
      Ok(s[left].callPremium)
  }

  /** `is_valid_quote`: the premium lies between the two bounds; it raises where the lower
      bound does. */
  function IsValidQuote(t: SliceTerms, s: seq<Quote>, q: Quote): (r: Result<bool>)
    requires Shaped(t, s)
    ensures r.Err? ==> r.error == LookupFailed
    ensures r.Err? <==> LowerLookupFails(s, q)
  {
    var lb :- LowerBound(t, s, q);
    var ub := UpperBound(t, s, q).value;
    Ok(lb <= q.callPremium <= ub)
  }

  /** On a set with distinct strikes the lookups of the bounds fail only for a strike that is
      not positive. */
  lemma LookupsOnDistinctStrikes(t: SliceTerms, s: seq<Quote>, q: Quote)
    requires Shaped(t, s) && StrictlySortedBy(s, QuoteLess)
    ensures LowerLookupFails(s, q) <==> q.strike <= 0.0
  {
    if q.strike > 0.0 {
      assert QuoteLess(s[0], s[1]);
      assert TwoPointsLeft(s, q) ==> 0.0 < s[1].strike < q.strike;
      assert QuoteLess(s[|s| - 2], s[|s| - 1]);
    }
  }

  /** Left of the first admitted strike, the left candidate is the theoretical minimum price:
      the strike-0 premium DF·F extended along the default slope -DF is DF·(F - k). */
  lemma LeftCandidateNearZeroIsIntrinsic(t: SliceTerms, s: seq<Quote>, q: Quote)
    requires Shaped(t, s) && q.strike > 0.0 && t.discountFactor >= 0.0
    requires !TwoPointsLeft(s, q)
    ensures LeftCandidate(t, s, q) == Ok(TheoreticalMinimumPrice(t, q.strike))
  {
    assert LeftAdjacent(s, q) == Ok(0);
    assert LeftDifferenceQuotient(t, s, q) == Ok(-t.discountFactor);
    var d := t.discountFactor;
    var k := q.strike;
    assert s[0].strike == 0.0 && s[0].callPremium == d * t.forward;
    var c := LeftCandidate(t, s, q);
    assert c.Ok? && c.value == Max(s[0].callPremium + -d * (k - s[0].strike), 0.0);
    assert s[0].callPremium + -d * (k - s[0].strike) == d * (t.forward - k);
    if t.forward - k < 0.0 {
      MulLeq(t.forward - k, 0.0, d);
      assert d * (t.forward - k) <= 0.0;
      assert Max(d * (t.forward - k), 0.0) == 0.0;
      assert c.value == 0.0;
    } else {
      MulLeq(0.0, t.forward - k, d);
      assert c.value == d * (t.forward - k);
      assert Max(t.forward - k, 0.0) == t.forward - k;
      assert TheoreticalMinimumPrice(t, k) == d * (t.forward - k);
    }
  }

  /** The upper bound is never above the higher of the two neighbouring premiums, nor below the
      lower one: the chord is a weighted average of them. Without a right neighbour it is the
      left neighbour's premium. */
  lemma UpperBoundBetweenNeighbours(t: SliceTerms, s: seq<Quote>, q: Quote)
    requires Shaped(t, s) && q.strike > 0.0
    ensures LeftAdjacent(s, q).Ok? && UpperBound(t, s, q).Ok?
    ensures var left := s[LeftAdjacent(s, q).value];
            Enclosed(s, q) ==>
              && RightAdjacent(s, q).Ok?
              && var right := s[RightAdjacent(s, q).value];
                 Min(left.callPremium, right.callPremium) <= UpperBound(t, s, q).value
                   <= Max(left.callPremium, right.callPremium)
    ensures !Enclosed(s, q) ==> UpperBound(t, s, q) == Ok(s[LeftAdjacent(s, q).value].callPremium)
  {
    if Enclosed(s, q) {
      assert RightAdjacent(s, q).Ok?;
      var left := s[LeftAdjacent(s, q).value];
      var right := s[RightAdjacent(s, q).value];
      assert left.strike < q.strike < right.strike;
      assert UpperBound(t, s, q) == Ok(Chord(left, q.strike, right));
      ChordBetween(left, q.strike, right);
    }
  }

  /** The chord between two quotes, at a strike between theirs, lies between their premiums. */
  lemma ChordBetween(left: Quote, k: real, right: Quote)
    requires left.strike <= k <= right.strike && left.strike < right.strike
    ensures Min(left.callPremium, right.callPremium) <= Chord(left, k, right)
              <= Max(left.callPremium, right.callPremium)
  {
    var kL, kR, pL, pR := left.strike, right.strike, left.callPremium, right.callPremium;
    var d := kR - kL;
    var x := (kR - k) * pL + (k - kL) * pR;
    assert Chord(left, k, right) == x / d;
    var lo, hi := Min(pL, pR), Max(pL, pR);
    MulLeq(lo, pL, kR - k);
    MulLeq(lo, pR, k - kL);
    MulLeq(pL, hi, kR - k);
    MulLeq(pR, hi, k - kL);
    assert lo * (kR - k) + lo * (k - kL) == lo * d;
    assert hi * (kR - k) + hi * (k - kL) == hi * d;
    DivAtLeast(x, d, lo);
    DivAtMost(x, d, hi);
  }

  function Min(a: real, b: real): real {
    if a <= b then a else b
  }

  /** `adjust_quote`: a premium below the lower bound or above the upper bound is moved to
      lb + ALPHA·(ub - lb), resp. lb + (1 - ALPHA)·(ub - lb), and recorded as an adjustment; a
      premium within the bounds is left alone. With ALPHA = 0 this clamps the premium. */
  function AdjustQuote(t: SliceTerms, q: Quote, lowerBound: real, upperBound: real): (r: Quote)
    ensures SameContract(q, r)
    ensures r == q <==> lowerBound <= q.callPremium <= upperBound
    ensures r.callPremium == q.callPremium <==> lowerBound <= q.callPremium <= upperBound
    ensures q.callPremium < lowerBound ==> r.callPremium == lowerBound
    ensures lowerBound <= q.callPremium && upperBound < q.callPremium ==> r.callPremium == upperBound
    ensures lowerBound <= upperBound ==> lowerBound <= r.callPremium <= upperBound
    ensures r.isAdjusted <==> q.isAdjusted || r != q
  {
    if q.callPremium < lowerBound then
      Adjust(q, lowerBound + Alpha * (upperBound - lowerBound), t.forward, t.discountFactor, t.volSolver)
    else if q.callPremium > upperBound then
      Adjust(q, lowerBound + (1.0 - Alpha) * (upperBound - lowerBound), t.forward, t.discountFactor, t.volSolver)
    else
      q
  }

  /** `truncate_European_call_theoretical_bounds`: the premium brought within
      [DF·max(F - K, 0), DF·F]. */
  function TruncateToTheoreticalBounds(t: SliceTerms, q: Quote): (r: Quote)
    requires t.forward != 0.0
    ensures SameContract(q, r)
    ensures t.forward > 0.0 && t.discountFactor >= 0.0 && q.strike >= 0.0 ==>
              TheoreticalMinimumPrice(t, q.strike) <= r.callPremium <= TheoreticalMaximumPrice(t)
    ensures r == q <==> TheoreticalMinimumPrice(t, q.strike) <= q.callPremium <= TheoreticalMaximumPrice(t)
    ensures r.isAdjusted <==> q.isAdjusted || r != q
  {
    TheoreticalBoundsOrdered(t, q.strike);
    AdjustQuote(t, q, TheoreticalMinimumPrice(t, q.strike), TheoreticalMaximumPrice(t))
  }

  datatype BoundSide = LowerSide | UpperSide

  /** `create_dummy_quote_for_strike`: a quote carrying only a strike, for bound lookups. */
  function DummyQuote(t: SliceTerms, strike: real): (q: Quote)
    requires t.forward != 0.0
    ensures q.strike == strike
  {
    NewQuote(strike, t.expiry, DummyFieldValue, DummyFieldValue, DummyFieldValue, t.forward)
  }

  /** On a list sorted by strike, `index` finds the first quote at the strike of `q`, and
      reports -1 exactly when no quote has that strike. */
  lemma IndexOfQuote(s: seq<Quote>, q: Quote)
    requires SortedBy(s, QuoteLess)
    ensures Index(s, q, QuoteLess, QuoteEq) == if HasStrike(s, q.strike) then IndexOfStrike(s, q.strike) else -1
  {
    QuoteLessIsStrictWeakOrder();
    var u := s + [q];
    assert StrictWeakOrderOn(u, QuoteLess) by {
      forall i, j, k | 0 <= i < |u| && 0 <= j < |u| && 0 <= k < |u|
        ensures OrderedTriple(u[i], u[j], u[k], QuoteLess)
      {
      }
    }
    IndexAbsent(s, q, QuoteLess, QuoteEq);
    var i := Index(s, q, QuoteLess, QuoteEq);
    if HasStrike(s, q.strike) {
      assert i != -1;
    }
  }

  /** `compute_bound_for_moneyness`: at strike m·F, the premium of the first admitted quote
      with that strike if there is one (for either side), otherwise the requested bound, with
      its ValueErrors. A negative strike therefore fails, and on distinct strikes nothing else
      does. */
  function BoundForMoneyness(t: SliceTerms, s: seq<Quote>, moneyness: real, side: BoundSide): (b: Result<real>)
    requires Shaped(t, s)
    ensures var k := moneyness * t.forward;
            HasStrike(s, k) ==> b == Ok(s[IndexOfStrike(s, k)].callPremium)
    ensures var k := moneyness * t.forward;
            !HasStrike(s, k) ==>
              var q := DummyQuote(t, k);
              b == if side == LowerSide then LowerBound(t, s, q) else UpperBound(t, s, q)
    ensures b.Err? ==> b.error == LookupFailed
    ensures moneyness * t.forward < 0.0 ==> b == Err(LookupFailed)
    ensures side == UpperSide ==> (b.Ok? <==> moneyness * t.forward >= 0.0)
    ensures StrictlySortedBy(s, QuoteLess) && moneyness * t.forward >= 0.0 ==> b.Ok?
  {
    var strike := moneyness * t.forward;
    var q := DummyQuote(t, strike);
    var i := Index(s, q, QuoteLess, QuoteEq);
    IndexOfQuote(s, q);
    if i != -1 then
      assert i == 0 || !QuoteLess(s[i], s[0]);
      Ok(s[i].callPremium)
    else
      BoundAtAbsentStrike(t, s, q);
      match side
      case LowerSide => LowerBound(t, s, q)
      case UpperSide => UpperBound(t, s, q)
  }

  /** A strike the set does not hold fails both bounds when negative, and neither when
      positive on distinct strikes; strike 0 is the strike-0 quote's. */
  lemma BoundAtAbsentStrike(t: SliceTerms, s: seq<Quote>, q: Quote)
    requires Shaped(t, s) && !HasStrike(s, q.strike)
    ensures q.strike < 0.0 ==> LowerBound(t, s, q) == Err(LookupFailed) && UpperBound(t, s, q) == Err(LookupFailed)
    ensures StrictlySortedBy(s, QuoteLess) && q.strike >= 0.0 ==> LowerBound(t, s, q).Ok? && UpperBound(t, s, q).Ok?
  {
    assert s[0].strike == 0.0;
    if StrictlySortedBy(s, QuoteLess) {
      LookupsOnDistinctStrikes(t, s, q);
    }
  }
}
