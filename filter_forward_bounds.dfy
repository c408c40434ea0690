/** The calendar-spread bounds of the original forward filter
    (python/filter_implementation/quote_surface.py): a quote at moneyness m of a later expiry T2
    must be worth at least every earlier filtered slice's lower bound at m, scaled by
    DF2·F2 / (DF1·F1), and a filtered quote of an earlier slice may not exceed the later slice's
    upper bound at its moneyness, scaled back. */
module FilterForwardBounds {
  import opened Common
  import opened Arithmetic
  import opened Sorting
  import opened FilterQuote
  import opened FilterSliceBounds

  /** A slice the forward filter has already filtered, as the later slices read it: its terms,
      its arbitrage-consistent set and its filtered quote list. */
  datatype FilteredSlice = FilteredSlice(terms: SliceTerms, consistentSet: seq<Quote>, sortedQuoteList: seq<Quote>)

  /** Discount factor and forward are positive, as market data are. */
  predicate PositiveTerms(t: SliceTerms) {
    t.discountFactor > 0.0 && t.forward > 0.0
  }

  /** What the bound lookups need of a filtered slice: positive terms and a shaped set. */
  ghost predicate Ready(p: FilteredSlice) {
    PositiveTerms(p.terms) && Shaped(p.terms, p.consistentSet)
  }

  ghost predicate AllReady(previous: seq<FilteredSlice>) {
    forall i :: 0 <= i < |previous| ==> Ready(previous[i])
  }

  /** A filtered slice on which no lookup fails: distinct strikes in its set and non-negative
      moneyness on its filtered quotes. */
  ghost predicate DistinctReady(p: FilteredSlice) {
    && Ready(p)
    && StrictlySortedBy(p.consistentSet, QuoteLess)
    && (forall i :: 0 <= i < |p.sortedQuoteList| ==> p.sortedQuoteList[i].moneyness >= 0.0)
  }

  ghost predicate AllDistinctReady(previous: seq<FilteredSlice>) {
    forall i :: 0 <= i < |previous| ==> DistinctReady(previous[i])
  }

  /** `compute_scaling_factor_expiry_lower_bound`: (DF2 / DF1)·(F2 / F1), the factor that turns a
      premium of expiry T1 into one of expiry T2 at the same moneyness: it maps the strike-0
      premium DF1·F1 onto DF2·F2. */
  function LowerScalingFactor(t1: SliceTerms, t2: SliceTerms): (c: real)
    requires t1.discountFactor != 0.0 && t1.forward != 0.0
    ensures c * (t1.discountFactor * t1.forward) == t2.discountFactor * t2.forward
    ensures PositiveTerms(t1) && PositiveTerms(t2) ==> c > 0.0
  {
    var c := t2.discountFactor / t1.discountFactor * t2.forward / t1.forward;
    assert c * t1.forward == t2.discountFactor / t1.discountFactor * t2.forward;
    assert t2.discountFactor / t1.discountFactor * t1.discountFactor == t2.discountFactor;
    c
  }

  /** `compute_scaling_factor_upper_bound_this_expiry`: the reciprocal of the lower factor. */
  function UpperScalingFactor(t1: SliceTerms, t2: SliceTerms): (c: real)
    requires PositiveTerms(t1) && PositiveTerms(t2)
    ensures c * LowerScalingFactor(t1, t2) == 1.0
    ensures c * (t2.discountFactor * t2.forward) == t1.discountFactor * t1.forward
    ensures c > 0.0
  {
    var l := LowerScalingFactor(t1, t2);
    var c := 1.0 / l;
    assert c * (t2.discountFactor * t2.forward) == c * (l * (t1.discountFactor * t1.forward));
    c
  }

  /** The running infimum of `compute_infimum_for_moneyness_filtered_slices`, which starts at
      -inf: `NoFloor` until some slice has contributed. */
  datatype Floor = NoFloor | Floor(value: real)

  /** `if lower_bound > infimum: infimum = lower_bound`. */
  function RaiseFloor(f: Floor, v: real): (r: Floor)
    ensures r.Floor? && r.value >= v
    ensures f.Floor? ==> r.value >= f.value
    ensures r.value == v || r == f
  {
    if f.NoFloor? || v > f.value then Floor(v) else f
  }

  /** `max(x, infimum)`, with max(x, -inf) = x. */
  function AtLeastFloor(x: real, f: Floor): (r: real)
    ensures r >= x && (f.Floor? ==> r >= f.value)
    ensures r == x || (f.Floor? && r == f.value)
  {
    if f.NoFloor? then x else Max(x, f.value)
  }

  /** `infimum > upper_bound`; -inf exceeds nothing. */
  predicate FloorAbove(f: Floor, x: real) {
    f.Floor? && f.value > x
  }

  /** The strike m·F of a moneyness has the sign of the moneyness when the forward is positive. */
  lemma StrikeSign(moneyness: real, forward: real)
    requires forward > 0.0
    ensures moneyness >= 0.0 <==> moneyness * forward >= 0.0
  {
    if moneyness >= 0.0 {
      MulLeq(0.0, moneyness, forward);
    } else {
      assert (-moneyness) * forward > 0.0;
    }
  }

  /** One filtered slice's contribution to the infimum: its lower bound at the moneyness, scaled
      to the current expiry; the lookup's ValueError propagates. */
  function ScaledLowerBound(p: FilteredSlice, t: SliceTerms, moneyness: real): (r: Result<real>)
    requires Ready(p)
    ensures r.Err? ==> r.error == LookupFailed
    ensures r.Err? <==> BoundForMoneyness(p.terms, p.consistentSet, moneyness, LowerSide).Err?
    ensures r.Err? ==> moneyness < 0.0 || !StrictlySortedBy(p.consistentSet, QuoteLess)
  {
    StrikeSign(moneyness, p.terms.forward);
    var b :- BoundForMoneyness(p.terms, p.consistentSet, moneyness, LowerSide);
    Ok(LowerScalingFactor(p.terms, t) * b)
  }

  /** The running maximum of the loop of `compute_infimum_for_moneyness_filtered_slices`, over
      the contributions in loop order. */
  function FloorOf(xs: seq<real>): (f: Floor)
    ensures f.NoFloor? <==> |xs| == 0
    ensures forall i :: 0 <= i < |xs| ==> f.value >= xs[i]
    ensures f.Floor? ==> exists i :: 0 <= i < |xs| && f.value == xs[i]
    decreases |xs|
  {
    if |xs| == 0 then NoFloor
    else
      var n := |xs| - 1;
      var f := RaiseFloor(FloorOf(xs[..n]), xs[n]);
      assert forall i :: 0 <= i < n ==> xs[..n][i] == xs[i];
      f
  }

  /** No filtered slice's lookup fails at the moneyness. */
  predicate LookupsSucceed(previous: seq<FilteredSlice>, t: SliceTerms, moneyness: real)
    requires AllReady(previous)
  {
    forall i :: 0 <= i < |previous| ==> ScaledLowerBound(previous[i], t, moneyness).Ok?
  }

  /** The scaled lower bounds of the filtered slices at a moneyness, in filtering order. */
  function ScaledLowerBounds(previous: seq<FilteredSlice>, t: SliceTerms, moneyness: real): (r: seq<real>)
    requires AllReady(previous) && LookupsSucceed(previous, t, moneyness)
    ensures |r| == |previous|
    ensures forall i :: 0 <= i < |previous| ==> r[i] == ScaledLowerBound(previous[i], t, moneyness).value
  {
    seq(|previous|, i requires 0 <= i < |previous| => ScaledLowerBound(previous[i], t, moneyness).value)
  }

  /** `compute_infimum_for_moneyness_filtered_slices`: the greatest scaled lower bound over the
      filtered slices, -inf when there are none. The loop stops at the first lookup that
      raises; every such error is the same ValueError, so the result is that error whenever
      some slice's lookup fails. */
  function Infimum(previous: seq<FilteredSlice>, t: SliceTerms, moneyness: real): (f: Result<Floor>)
    requires AllReady(previous)
    ensures f.Err? ==> f.error == LookupFailed
    ensures f.Err? <==> !LookupsSucceed(previous, t, moneyness)
    ensures f.Ok? ==> (f.value.NoFloor? <==> |previous| == 0)
    ensures f.Ok? ==>
              forall i :: 0 <= i < |previous| ==> f.value.value >= ScaledLowerBound(previous[i], t, moneyness).value
    ensures f.Ok? && f.value.Floor? ==>
              exists i :: 0 <= i < |previous| && f.value.value == ScaledLowerBound(previous[i], t, moneyness).value
    ensures AllDistinctReady(previous) && moneyness >= 0.0 ==> f.Ok?
  {
    if LookupsSucceed(previous, t, moneyness) then
      Ok(FloorOf(ScaledLowerBounds(previous, t, moneyness)))
    else
      Err(LookupFailed)
  }

  /** `compute_bounds_forward_filter`: the lower bound is the slice's own, raised to the
      infimum; the upper bound is the slice's own. The lookups' ValueErrors propagate in that
      order; an infimum above the upper bound has no feasible premium and raises
      LowerBoundMoneynessTooHighException. */
  function ForwardBounds(t: SliceTerms, previous: seq<FilteredSlice>, s: seq<Quote>, q: Quote): (r: Result<(real, real)>)
    requires Shaped(t, s) && AllReady(previous)
    ensures r.Err? ==> r.error == LookupFailed || r.error == LowerBoundMoneynessTooHigh
    ensures r == Err(LookupFailed) <==> LowerLookupFails(s, q) || Infimum(previous, t, q.moneyness).Err?
    ensures r == Err(LowerBoundMoneynessTooHigh) <==>
              && !LowerLookupFails(s, q)
              && Infimum(previous, t, q.moneyness).Ok?
              && FloorAbove(Infimum(previous, t, q.moneyness).value, UpperBound(t, s, q).value)
    ensures r.Ok? ==>
              && LowerBound(t, s, q).Ok? && UpperBound(t, s, q).Ok?
              && r.value.1 == UpperBound(t, s, q).value && r.value.0 >= LowerBound(t, s, q).value
    ensures r.Ok? ==>
              forall i :: 0 <= i < |previous| ==>
                ScaledLowerBound(previous[i], t, q.moneyness).Ok?
                && r.value.0 >= ScaledLowerBound(previous[i], t, q.moneyness).value
    ensures r.Ok? ==>
              || r.value.0 == LowerBound(t, s, q).value
              || (|previous| > 0 && r.value.0 == Infimum(previous, t, q.moneyness).value.value)
    ensures |previous| == 0 && !LowerLookupFails(s, q) ==>
              r == Ok((LowerBound(t, s, q).value, UpperBound(t, s, q).value))
  {
    var here :- LowerBound(t, s, q);
    var floor :- Infimum(previous, t, q.moneyness);
    var ub := UpperBound(t, s, q).value;
    if FloorAbove(floor, ub) then Err(LowerBoundMoneynessTooHigh) else Ok((AtLeastFloor(here, floor), ub))
  }

  /** `is_valid_quote_forward_filtering`: the premium lies between the forward bounds. */
  function IsValidForward(t: SliceTerms, previous: seq<FilteredSlice>, s: seq<Quote>, q: Quote): (r: Result<bool>)
    requires Shaped(t, s) && AllReady(previous)
    ensures r.Err? <==> ForwardBounds(t, previous, s, q).Err?
    ensures r.Err? ==> r.error == ForwardBounds(t, previous, s, q).error
    ensures |previous| == 0 ==> r == IsValidQuote(t, s, q)
  {
    var (lb, ub) :- ForwardBounds(t, previous, s, q);
    Ok(lb <= q.callPremium <= ub)
  }

  /** The test of `previous_premium_exceeds_upper_bound` for one filtered quote of an earlier
      slice: its premium exceeds the current slice's upper bound at its moneyness, scaled back.
      The upper lookup fails exactly on a negative moneyness. */
  function QuoteExceeds(p: FilteredSlice, t: SliceTerms, s: seq<Quote>, q: Quote): (r: Result<bool>)
    requires PositiveTerms(p.terms) && PositiveTerms(t) && Shaped(t, s)
    ensures r.Err? ==> r.error == LookupFailed
    ensures r.Err? <==> q.moneyness < 0.0
    ensures r.Ok? ==>
              (r.value <==> q.callPremium > UpperScalingFactor(p.terms, t) * BoundForMoneyness(t, s, q.moneyness, UpperSide).value)
  {
    StrikeSign(q.moneyness, t.forward);
    var ub :- BoundForMoneyness(t, s, q.moneyness, UpperSide);
    Ok(q.callPremium > UpperScalingFactor(p.terms, t) * ub)
  }

  /** The inner loop over one slice's filtered quotes: the first quote that exceeds returns
      True, the first lookup that raises ends the loop with its error. */
  function ListExceeds(p: FilteredSlice, t: SliceTerms, s: seq<Quote>, qs: seq<Quote>): (r: Result<bool>)
    requires PositiveTerms(p.terms) && PositiveTerms(t) && Shaped(t, s)
    ensures r == Ok(false) <==> forall j :: 0 <= j < |qs| ==> QuoteExceeds(p, t, s, qs[j]) == Ok(false)
    ensures r != Ok(false) ==>
              exists j :: 0 <= j < |qs| && r == QuoteExceeds(p, t, s, qs[j])
                          && forall k :: 0 <= k < j ==> QuoteExceeds(p, t, s, qs[k]) == Ok(false)
    decreases |qs|
  {
    if |qs| == 0 then Ok(false)
    else
      var first := QuoteExceeds(p, t, s, qs[0]);
      if first != Ok(false) then first
      else
        var r := ListExceeds(p, t, s, qs[1..]);
        ListExceedsStep(p, t, s, qs, r);
        r
  }

  /** The step of `ListExceeds` past a first quote that does not exceed. */
  lemma ListExceedsStep(p: FilteredSlice, t: SliceTerms, s: seq<Quote>, qs: seq<Quote>, r: Result<bool>)
    requires PositiveTerms(p.terms) && PositiveTerms(t) && Shaped(t, s)
    requires |qs| > 0 && QuoteExceeds(p, t, s, qs[0]) == Ok(false)
    requires r == Ok(false) <==> forall j :: 0 <= j < |qs| - 1 ==> QuoteExceeds(p, t, s, qs[1..][j]) == Ok(false)
    requires r != Ok(false) ==>
               exists j :: 0 <= j < |qs| - 1 && r == QuoteExceeds(p, t, s, qs[1..][j])
                           && forall k :: 0 <= k < j ==> QuoteExceeds(p, t, s, qs[1..][k]) == Ok(false)
    ensures r == Ok(false) <==> forall j :: 0 <= j < |qs| ==> QuoteExceeds(p, t, s, qs[j]) == Ok(false)
    ensures r != Ok(false) ==>
              exists j :: 0 <= j < |qs| && r == QuoteExceeds(p, t, s, qs[j])
                          && forall k :: 0 <= k < j ==> QuoteExceeds(p, t, s, qs[k]) == Ok(false)
  {
    if r == Ok(false) {
      forall j | 0 <= j < |qs|
        ensures QuoteExceeds(p, t, s, qs[j]) == Ok(false)
      {
        if j > 0 {
          assert qs[j] == qs[1..][j - 1];
        }
      }
    } else {
      var j :| 0 <= j < |qs| - 1 && r == QuoteExceeds(p, t, s, qs[1..][j])
               && forall k :: 0 <= k < j ==> QuoteExceeds(p, t, s, qs[1..][k]) == Ok(false);
      assert qs[j + 1] == qs[1..][j];
      forall k | 0 <= k < j + 1
        ensures QuoteExceeds(p, t, s, qs[k]) == Ok(false)
      {
        if k > 0 {
          assert qs[k] == qs[1..][k - 1];
        }
      }
    }
  }

  /** `previous_premium_exceeds_upper_bound`: the slices in filtering order, each one's list in
      order; the first quote that exceeds returns True, the first lookup that raises ends it
      with its error. */
  function PreviousPremiumExceeds(previous: seq<FilteredSlice>, t: SliceTerms, s: seq<Quote>): (r: Result<bool>)
    requires AllReady(previous) && PositiveTerms(t) && Shaped(t, s)
    ensures r == Ok(false) <==>
              forall i :: 0 <= i < |previous| ==> ListExceeds(previous[i], t, s, previous[i].sortedQuoteList) == Ok(false)
    ensures r != Ok(false) ==>
              exists i :: 0 <= i < |previous| && r == ListExceeds(previous[i], t, s, previous[i].sortedQuoteList)
                          && forall k :: 0 <= k < i ==> ListExceeds(previous[k], t, s, previous[k].sortedQuoteList) == Ok(false)
    decreases |previous|
  {
    if |previous| == 0 then Ok(false)
    else
      var first := ListExceeds(previous[0], t, s, previous[0].sortedQuoteList);
      if first != Ok(false) then first
      else
        var r := PreviousPremiumExceeds(previous[1..], t, s);
        PreviousExceedsStep(previous, t, s, r);
        r
  }

  /** The step of `PreviousPremiumExceeds` past a first slice none of whose quotes exceeds. */
  lemma PreviousExceedsStep(previous: seq<FilteredSlice>, t: SliceTerms, s: seq<Quote>, r: Result<bool>)
    requires AllReady(previous) && PositiveTerms(t) && Shaped(t, s)
    requires |previous| > 0 && ListExceeds(previous[0], t, s, previous[0].sortedQuoteList) == Ok(false)
    requires r == Ok(false) <==>
               forall i :: 0 <= i < |previous| - 1 ==>
                 ListExceeds(previous[1..][i], t, s, previous[1..][i].sortedQuoteList) == Ok(false)
    requires r != Ok(false) ==>
               exists i :: 0 <= i < |previous| - 1 && r == ListExceeds(previous[1..][i], t, s, previous[1..][i].sortedQuoteList)
                           && forall k :: 0 <= k < i ==> ListExceeds(previous[1..][k], t, s, previous[1..][k].sortedQuoteList) == Ok(false)
    ensures r == Ok(false) <==>
              forall i :: 0 <= i < |previous| ==> ListExceeds(previous[i], t, s, previous[i].sortedQuoteList) == Ok(false)
    ensures r != Ok(false) ==>
              exists i :: 0 <= i < |previous| && r == ListExceeds(previous[i], t, s, previous[i].sortedQuoteList)
                          && forall k :: 0 <= k < i ==> ListExceeds(previous[k], t, s, previous[k].sortedQuoteList) == Ok(false)
  {
    if r == Ok(false) {
      forall i | 0 <= i < |previous|
        ensures ListExceeds(previous[i], t, s, previous[i].sortedQuoteList) == Ok(false)
      {
        if i > 0 {
          assert previous[i] == previous[1..][i - 1];
        }
      }
    } else {
      var i :| 0 <= i < |previous| - 1 && r == ListExceeds(previous[1..][i], t, s, previous[1..][i].sortedQuoteList)
               && forall k :: 0 <= k < i ==> ListExceeds(previous[1..][k], t, s, previous[1..][k].sortedQuoteList) == Ok(false);
      assert previous[i + 1] == previous[1..][i];
      forall k | 0 <= k < i + 1
        ensures ListExceeds(previous[k], t, s, previous[k].sortedQuoteList) == Ok(false)
      {
        if k > 0 {
          assert previous[k] == previous[1..][k - 1];
        }
      }
    }
  }

  /** The check never fails a lookup on slices whose filtered quotes have non-negative moneyness;
      an error, when it comes, is the lookup's ValueError. */
  lemma PreviousPremiumExceedsSucceeds(previous: seq<FilteredSlice>, t: SliceTerms, s: seq<Quote>)
    requires AllReady(previous) && PositiveTerms(t) && Shaped(t, s)
    ensures PreviousPremiumExceeds(previous, t, s).Err? ==> PreviousPremiumExceeds(previous, t, s).error == LookupFailed
    ensures AllDistinctReady(previous) ==> PreviousPremiumExceeds(previous, t, s).Ok?
  {
    var r := PreviousPremiumExceeds(previous, t, s);
    if r.Err? {
      var i :| 0 <= i < |previous| && r == ListExceeds(previous[i], t, s, previous[i].sortedQuoteList);
      var j :| 0 <= j < |previous[i].sortedQuoteList| && r == QuoteExceeds(previous[i], t, s, previous[i].sortedQuoteList[j]);
    }
  }
}
