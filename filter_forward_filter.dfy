/** The calendar ("forward") filter of python/filter_implementation/quote_surface.py, on
    values: the slices are filtered in order of expiry, each against all slices filtered
    before it; a pass that fails with LowerBoundMoneynessTooHighException or
    PreviousPremiumTooHighException is retried after bumping the first-ranked premium, the
    last retry sets every premium to its maximum, and if even that conflicts with an earlier
    slice the slice falls back to the strike filter alone. A lookup's ValueError is not
    caught: it ends the surface filter with `LookupFailed`. */
module FilterForwardFilter {
  import opened Common
  import opened Arithmetic
  import opened Sorting
  import opened FilterQuote
  import opened FilterSliceBounds
  import opened FilterForwardBounds
  import opened FilterFills
  import opened FilterSafeguard

  /** `MAXIMUM_NUMBER_OF_FAILED_ATTEMPTS` of filter_constants.py. */
  const MaximumNumberOfFailedAttempts: nat := 10

  /** A filtered slice is ready for the lookups of later slices; when its quotes came from
      candidates and its set is strictly sorted, none of those lookups fails. */
  lemma AccountedIsReady(t: SliceTerms, pending: seq<Quote>, st: SliceState)
    requires PositiveTerms(t) && Accounted(t, pending, st)
    ensures Ready(FilteredSlice(t, st.consistentSet, st.sortedQuoteList))
    ensures Candidates(pending) && StrictlySortedBy(st.consistentSet, QuoteLess) ==>
              DistinctReady(FilteredSlice(t, st.consistentSet, st.sortedQuoteList))
  {
    if Candidates(pending) {
      forall i | 0 <= i < |st.sortedQuoteList|
        ensures st.sortedQuoteList[i].moneyness >= 0.0
      {
        var j :| 0 <= j < |pending| && SameContract(st.sortedQuoteList[i], pending[j])
                 && (st.sortedQuoteList[i] == pending[j] || st.sortedQuoteList[i].isAdjusted);
      }
    }
  }

  /** An account of a list is an account of any permutation of it. */
  lemma AccountedOfPermutation(t: SliceTerms, a: seq<Quote>, b: seq<Quote>, st: SliceState)
    requires Accounted(t, a, st) && multiset(a) == multiset(b)
    ensures Accounted(t, b, st)
  {
    StrikesOfPermutation(a, b);
    forall i | 0 <= i < |st.sortedQuoteList|
      ensures DerivedFrom(st.sortedQuoteList[i], b)
    {
      DerivedFromPermutation(st.sortedQuoteList[i], a, b);
    }
  }

  /** An account of a repriced list is an account of the list it was repriced from. */
  lemma AccountedOfRepriced(t: SliceTerms, a: seq<Quote>, b: seq<Quote>, st: SliceState)
    requires Accounted(t, a, st) && Strikes(a) == Strikes(b)
    requires forall j :: 0 <= j < |a| ==> DerivedFrom(a[j], b)
    ensures Accounted(t, b, st)
  {
    forall i | 0 <= i < |st.sortedQuoteList|
      ensures DerivedFrom(st.sortedQuoteList[i], b)
    {
      DerivedFromTransitive(st.sortedQuoteList[i], a, b);
    }
  }

  /** The moneyness `strike / forward` the surface computes for the first-ranked quote: it
      gives the strike back and has its sign. */
  function StrikeMoneyness(t: SliceTerms, q: Quote): (m: real)
    requires PositiveTerms(t)
    ensures m * t.forward == q.strike
    ensures m >= 0.0 <==> q.strike >= 0.0
    ensures m > 0.0 <==> q.strike > 0.0
  {
    DivMul(q.strike, t.forward);
    StrikeSign(q.strike / t.forward, t.forward);
    q.strike / t.forward
  }

  /** `truncate_first_ranked_quote_forward_filtering` on the first-ranked quote: its premium
      brought within [max(DF·max(F - K, 0), infimum implied by the filtered slices), DF·F]. The
      infimum's lookups may raise; with no filtered slice it is the truncation to the
      theoretical bounds, and on slices filtered from distinct strikes it does not fail at a
      non-negative strike. */
  function TruncatedFirst(t: SliceTerms, previous: seq<FilteredSlice>, q: Quote): (r: Result<Quote>)
    requires PositiveTerms(t) && AllReady(previous)
    ensures r.Err? <==> Infimum(previous, t, StrikeMoneyness(t, q)).Err?
    ensures r.Err? ==> r.error == LookupFailed
    ensures r.Ok? ==> SameContract(r.value, q) && (r.value == q || r.value.isAdjusted)
    ensures r.Ok? ==>
              var lb := AtLeastFloor(TheoreticalMinimumPrice(t, q.strike), Infimum(previous, t, StrikeMoneyness(t, q)).value);
              lb <= TheoreticalMaximumPrice(t) ==> lb <= r.value.callPremium <= TheoreticalMaximumPrice(t)
    ensures |previous| == 0 ==> r == Ok(TruncateToTheoreticalBounds(t, q))
    ensures AllDistinctReady(previous) && q.strike >= 0.0 ==> r.Ok?
  {
    var floor :- Infimum(previous, t, StrikeMoneyness(t, q));
    var lb := AtLeastFloor(TheoreticalMinimumPrice(t, q.strike), floor);
    Ok(AdjustQuote(t, q, lb, TheoreticalMaximumPrice(t)))
  }

  /** Repricing one quote of a list of candidates leaves a list of candidates. */
  lemma RepricedCandidates(s: seq<Quote>, i: nat, q: Quote)
    requires i < |s| && SameContract(q, s[i])
    ensures Candidates(s) ==> Candidates(s[i := q])
  {
    var r := s[i := q];
    if !Candidates(s) { return; }
    forall j, k | 0 <= j < k < |r|
      ensures r[j].strike != r[k].strike
    {
      assert r[j].strike == s[j].strike && r[k].strike == s[k].strike;
    }
  }

  /** The truncation applied in place to the first-ranked quote of the pending list. */
  function TruncateFirstRanked(t: SliceTerms, previous: seq<FilteredSlice>, pending: seq<Quote>): (r: Result<seq<Quote>>)
    requires PositiveTerms(t) && AllReady(previous) && |pending| > 0
    ensures r.Err? <==> TruncatedFirst(t, previous, pending[0]).Err?
    ensures r.Err? ==> r.error == LookupFailed
    ensures r.Ok? ==> && |r.value| == |pending| && Strikes(r.value) == Strikes(pending)
                      && r.value[0] == TruncatedFirst(t, previous, pending[0]).value
                      && (forall i :: 1 <= i < |r.value| ==> r.value[i] == pending[i])
    ensures r.Ok? && Candidates(pending) ==> Candidates(r.value)
  {
    var q :- TruncatedFirst(t, previous, pending[0]);
    RepricedCandidates(pending, 0, q);
    Ok(pending[0 := q])
  }

  /** Lists with the same strikes have non-negative strikes together. */
  lemma NonNegativeOfSameStrikes(a: seq<Quote>, b: seq<Quote>)
    requires Strikes(a) == Strikes(b) && NonNegativeStrikes(a)
    ensures NonNegativeStrikes(b)
  {
    forall i | 0 <= i < |b|
      ensures b[i].strike >= 0.0
    {
      assert Strikes(b)[i] == Strikes(a)[i];
    }
  }

  /** `compute_scaled_distance_first_ranked_to_max_call_price`: a tenth of the way from the
      first-ranked premium to DF·F, so that the bumps, were all ten made, would reach DF·F. */
  function BumpSize(t: SliceTerms, first: Quote): (b: real)
    requires t.forward != 0.0
    ensures first.callPremium + (MaximumNumberOfFailedAttempts as real) * b == TheoreticalMaximumPrice(t)
    ensures first.callPremium <= TheoreticalMaximumPrice(t) ==> b >= 0.0
  {
    (TheoreticalMaximumPrice(t) - first.callPremium) / (MaximumNumberOfFailedAttempts as real)
  }

  /** `bump_first_ranked_call_price`: the first-ranked premium raised by `size`. */
  function Bump(t: SliceTerms, pending: seq<Quote>, size: real): (r: seq<Quote>)
    requires |pending| > 0
    ensures |r| == |pending| && Strikes(r) == Strikes(pending)
    ensures forall i :: 1 <= i < |r| ==> r[i] == pending[i]
    ensures SameContract(r[0], pending[0]) && r[0].isAdjusted
    ensures r[0].callPremium == pending[0].callPremium + size
    ensures Candidates(pending) ==> Candidates(r)
  {
    var q := Adjust(pending[0], pending[0].callPremium + size, t.forward, t.discountFactor, t.volSolver);
    RepricedCandidates(pending, 0, q);
    pending[0 := q]
  }

  /** An account of the bumped list is an account of the list before the bump. */
  lemma BumpAccounted(t: SliceTerms, pending: seq<Quote>, size: real, st: SliceState)
    requires |pending| > 0 && Accounted(t, Bump(t, pending, size), st)
    ensures Accounted(t, pending, st)
  {
    var bumped := Bump(t, pending, size);
    forall j | 0 <= j < |bumped|
      ensures DerivedFrom(bumped[j], pending)
    {
      assert SameContract(bumped[j], pending[j]);
    }
    AccountedOfRepriced(t, bumped, pending, st);
  }

  /** Every quote of the set after the strike-0 quote is at DF·F, as the last resort leaves
      them. */
  predicate AtMaximum(t: SliceTerms, c: seq<Quote>)
    requires t.forward != 0.0
  {
    forall i :: 1 <= i < |c| ==> c[i].callPremium == TheoreticalMaximumPrice(t)
  }

  /** Every quote of the set `c` after the strike-0 quote is above the floor, but one
      repricing of `first`: the first-ranked quote as the pass truncated it. */
  ghost predicate FloorKeptBesidesFirst(previous: seq<FilteredSlice>, t: SliceTerms, c: seq<Quote>, first: Quote)
    requires AllReady(previous)
  {
    exists q :: SameContract(q, first) && FloorKeptBesides(previous, t, c, q)
  }

  /** The first-ranked quote `q` of retry round `n` is within the theoretical bounds and above
      the floor, and stays so however many of the remaining rounds bump it by `size`. */
  ghost predicate FirstRankedFits(t: SliceTerms, previous: seq<FilteredSlice>, q: Quote, size: real, n: nat)
    requires t.forward != 0.0 && AllReady(previous)
  {
    && n < MaximumNumberOfFailedAttempts && size >= 0.0
    && TheoreticalMinimumPrice(t, q.strike) <= q.callPremium
    && q.callPremium + ((MaximumNumberOfFailedAttempts - n) as real) * size <= TheoreticalMaximumPrice(t)
    && AboveFloor(previous, t, q)
  }

  /** A fitting first-ranked quote is within the theoretical bounds, and one bump keeps it
      fitting for the next round. */
  lemma BumpFits(t: SliceTerms, previous: seq<FilteredSlice>, pending: seq<Quote>, size: real, n: nat)
    requires t.forward != 0.0 && AllReady(previous) && |pending| > 0
    ensures FirstRankedFits(t, previous, pending[0], size, n) ==>
              && pending[0].callPremium <= TheoreticalMaximumPrice(t)
              && (n + 1 < MaximumNumberOfFailedAttempts ==> FirstRankedFits(t, previous, Bump(t, pending, size)[0], size, n + 1))
  {
    if FirstRankedFits(t, previous, pending[0], size, n) {
      var k := (MaximumNumberOfFailedAttempts - n) as real;
      MulLeq(0.0, k, size);
      assert (k - 1.0) * size + size == k * size;
    }
  }

  /** The outcome of `forward_surface_filter_for_index`'s retries: the slice state reached and
      whether the procedure failed. */
  datatype Outcome = Outcome(state: SliceState, failed: bool)

  /** The retries from failed-attempt count `n` on: an attempt that succeeds ends them; one
      that fails with LowerBoundMoneynessTooHighException or PreviousPremiumTooHighException is
      undone, and then either the first-ranked premium is bumped, or on the last round every
      premium is set to DF·F and the procedure has failed if an earlier slice's premium still
      exceeds the scaled upper bound. Any other error ends the retries. */
  function RetryFrom(t: SliceTerms, previous: seq<FilteredSlice>, pending: seq<Quote>, size: real, n: nat): (r: Result<Outcome>)
    requires PositiveTerms(t) && AllReady(previous) && |pending| > 0 && NonNegativeStrikes(pending)
    requires n < MaximumNumberOfFailedAttempts
    ensures r.Err? ==> r.error == LookupFailed
    ensures r.Ok? ==> Accounted(t, pending, r.value.state)
    ensures r.Ok? && !r.value.failed ==> PreviousPremiumExceeds(previous, t, r.value.state.consistentSet) == Ok(false)
    ensures r.Ok? && r.value.failed ==> AtMaximum(t, r.value.state.consistentSet)
    ensures r.Ok? && !r.value.failed ==>
              || FloorKeptBesidesFirst(previous, t, r.value.state.consistentSet, pending[0])
              || AtMaximum(t, r.value.state.consistentSet)
    ensures r.Ok? && !r.value.failed && FirstRankedFits(t, previous, pending[0], size, n) ==>
              FloorKept(previous, t, r.value.state.consistentSet) || AtMaximum(t, r.value.state.consistentSet)
    ensures |previous| == 0 && StrikeFilter(t, pending).Ok? ==> r == Ok(Outcome(StrikeFilter(t, pending).value, false))
    ensures |previous| == 0 && StrikeFilter(t, pending).Err? ==> r == Err(StrikeFilter(t, pending).error)
    ensures Candidates(pending) && AllDistinctReady(previous) ==>
              r.Ok? && StrictlySortedBy(r.value.state.consistentSet, QuoteLess)
    decreases MaximumNumberOfFailedAttempts - n
  {
    var a := ForwardAttempt(t, previous, pending);
    if a.Ok? then
      FilteredIsAccounted(t, pending, a.value);
      BumpFits(t, previous, pending, size, n);
      assert SameContract(TruncateToTheoreticalBounds(t, pending[0]), pending[0]);
      Ok(Outcome(a.value, false))
    else if a.error != LowerBoundMoneynessTooHigh && a.error != PreviousPremiumTooHigh then
      Err(a.error)
    else if n == MaximumNumberOfFailedAttempts - 1 then
      var st := FinalSafeguard(t, pending);
      assert AtMaximum(t, st.consistentSet);
      FinalSafeguardAccounted(t, pending);
      FinalSafeguardIfDistinct(t, pending);
      PreviousPremiumExceedsSucceeds(previous, t, st.consistentSet);
      var exceeds :- PreviousPremiumExceeds(previous, t, st.consistentSet);
      Ok(Outcome(st, exceeds))
    else
      var bumped := Bump(t, pending, size);
      NonNegativeOfSameStrikes(pending, bumped);
      var r := RetryFrom(t, previous, bumped, size, n + 1);
      BumpFits(t, previous, pending, size, n);
      if r.Ok? then
        BumpAccounted(t, pending, size, r.value.state);
        r
      else r
  }

  /** On distinct positive strikes the last resort's set is strictly sorted. */
  lemma FinalSafeguardIfDistinct(t: SliceTerms, list: seq<Quote>)
    requires t.forward != 0.0 && |list| > 0
    ensures Candidates(list) ==> StrictlySortedBy(FinalSafeguard(t, list).consistentSet, QuoteLess)
  {
    if Candidates(list) {
      FinalSafeguardDistinct(t, list);
    }
  }

  /** On distinct positive strikes the last resort's set is strictly sorted. */
  lemma FinalSafeguardDistinct(t: SliceTerms, list: seq<Quote>)
    requires t.forward != 0.0 && |list| > 0 && Candidates(list)
    ensures StrictlySortedBy(FinalSafeguard(t, list).consistentSet, QuoteLess)
  {
    var all := AllAtMaximum(t, list);
    forall i, j | 0 <= i < j < |all|
      ensures all[i].strike != all[j].strike
    {
      assert SameContract(all[i], list[i]) && SameContract(all[j], list[j]);
    }
    assert Candidates(all);
    PostfilterShaped(t, all);
  }

  /** The strike filter truncates the first-ranked quote to the theoretical bounds itself, so
      truncating it beforehand changes nothing: a second truncation is the identity. */
  lemma StrikeFilterAfterTruncation(t: SliceTerms, pending: seq<Quote>)
    requires PositiveTerms(t) && |pending| > 0 && NonNegativeStrikes(pending)
    ensures TruncateFirstRanked(t, [], pending).Ok?
    ensures StrikeFilter(t, TruncateFirstRanked(t, [], pending).value) == StrikeFilter(t, pending)
  {
    var r := TruncateFirstRanked(t, [], pending).value;
    var q := TruncateToTheoreticalBounds(t, pending[0]);
    assert r[0] == q;
    TheoreticalBoundsOrdered(t, q.strike);
    assert TruncateToTheoreticalBounds(t, q) == q;
    assert r[1..] == pending[1..];
    assert InitialSet(t, r) == InitialSet(t, pending);
  }

  /** The first-ranked quote `q` reports the moneyness the truncation computes, at a
      non-negative strike, and the infimum there succeeds and leaves room below DF·F. */
  ghost predicate RoomForFirstRanked(t: SliceTerms, previous: seq<FilteredSlice>, q: Quote)
    requires t.forward != 0.0 && AllReady(previous)
  {
    && q.moneyness * t.forward == q.strike && q.strike >= 0.0
    && Infimum(previous, t, q.moneyness).Ok?
    && !FloorAbove(Infimum(previous, t, q.moneyness).value, TheoreticalMaximumPrice(t))
  }

  /** The truncated first-ranked quote fits the retries when there is room for it: it is then
      within the theoretical bounds, above the floor, and ten bumps of `BumpSize` take it
      exactly to DF·F. */
  lemma TruncatedFits(t: SliceTerms, previous: seq<FilteredSlice>, q: Quote)
    requires PositiveTerms(t) && AllReady(previous) && RoomForFirstRanked(t, previous, q)
    ensures TruncatedFirst(t, previous, q).Ok?
    ensures var r := TruncatedFirst(t, previous, q).value;
            FirstRankedFits(t, previous, r, BumpSize(t, r), 0)
  {
    ReportedMoneyness(t, q);
    var r := TruncatedFirst(t, previous, q).value;
    TruncatedWithinBounds(t, previous, q, r);
    var b := BumpSize(t, r);
    assert r.callPremium + (MaximumNumberOfFailedAttempts as real) * b == TheoreticalMaximumPrice(t);
  }

  /** The truncated first-ranked quote `r` lies between the theoretical minimum at its strike
      and DF·F, and above the floor at its moneyness. */
  lemma TruncatedWithinBounds(t: SliceTerms, previous: seq<FilteredSlice>, q: Quote, r: Quote)
    requires PositiveTerms(t) && AllReady(previous) && RoomForFirstRanked(t, previous, q)
    requires StrikeMoneyness(t, q) == q.moneyness
    requires TruncatedFirst(t, previous, q) == Ok(r)
    ensures TheoreticalMinimumPrice(t, r.strike) <= r.callPremium <= TheoreticalMaximumPrice(t)
    ensures AboveFloor(previous, t, r)
  {
    TheoreticalBoundsOrdered(t, q.strike);
    var f := Infimum(previous, t, q.moneyness).value;
    LowerBoundBelow(TheoreticalMinimumPrice(t, q.strike), f, TheoreticalMaximumPrice(t));
  }

  /** The lower bound of the truncation stays below `ub` when the price it raises and the
      floor both do. */
  lemma LowerBoundBelow(x: real, f: Floor, ub: real)
    requires x <= ub && !FloorAbove(f, ub)
    ensures AtLeastFloor(x, f) <= ub
  {
  }

  /** A quote whose moneyness times the forward is its strike reports the moneyness the
      truncation computes. */
  lemma ReportedMoneyness(t: SliceTerms, q: Quote)
    requires PositiveTerms(t) && q.moneyness * t.forward == q.strike
    ensures StrikeMoneyness(t, q) == q.moneyness
  {
    SameQuotient(StrikeMoneyness(t, q), q.moneyness, t.forward, q.strike);
  }

  /** Two numbers that both give `k` when multiplied by a positive `c` are equal. */
  lemma SameQuotient(a: real, b: real, c: real, k: real)
    requires c > 0.0 && a * c == k && b * c == k
    ensures a == b
  {
    assert (a - b) * c == 0.0;
  }

  /** `forward_surface_filter_for_index`: truncate the first-ranked quote, retry the forward
      pass with ever higher first-ranked premiums, and if the procedure failed, filter the
      slice as it was in the strike dimension alone, with the safeguard. An empty slice has no
      first-ranked quote (IndexError); a lookup that raises ends the filter. */
  function ForwardFilterForIndex(t: SliceTerms, previous: seq<FilteredSlice>, original: seq<Quote>, shuffle: Shuffle): (r: Result<SliceState>)
    requires PositiveTerms(t) && AllReady(previous) && NonNegativeStrikes(original) && IsShuffle(shuffle)
    ensures |original| == 0 ==> r == Err(IndexOutOfRange)
    ensures r.Err? ==> r.error == IndexOutOfRange || r.error == LookupFailed
    ensures r.Err? ==> (r.error == IndexOutOfRange <==> |original| == 0)
    ensures r.Ok? ==> Accounted(t, original, r.value)
    ensures r.Ok? ==> PreviousPremiumExceeds(previous, t, r.value.consistentSet) == Ok(false)
                      || r == StrikeSafeguard(t, original, shuffle)
    ensures Candidates(original) && AllDistinctReady(previous) ==>
              && (r.Err? <==> |original| == 0)
              && (r.Ok? ==> StrictlySortedBy(r.value.consistentSet, QuoteLess))
  {
    if |original| == 0 then Err(IndexOutOfRange)
    else
      var p := TruncateFirstRanked(t, previous, original);
      if p.Err? then Err(p.error)
      else
        var pending := p.value;
        NonNegativeOfSameStrikes(original, pending);
        TruncatedFirstRanked(t, previous, original);
        var o := RetryFrom(t, previous, pending, BumpSize(t, pending[0]), 0);
        if o.Err? then Err(o.error)
        else if o.value.failed then StrikeSafeguard(t, original, shuffle)
        else
          TruncateAccounted(t, previous, original, pending, o.value.state);
          Ok(o.value.state)
  }

  /** With no filtered slice before it there is no floor, the retries never run and the
      forward filter for a slice is the strike filter. */
  lemma ForwardFilterWithoutPrevious(t: SliceTerms, original: seq<Quote>, shuffle: Shuffle)
    requires PositiveTerms(t) && NonNegativeStrikes(original) && IsShuffle(shuffle)
    ensures ForwardFilterForIndex(t, [], original, shuffle) == StrikeFilter(t, original)
  {
    if |original| > 0 {
      StrikeFilterAfterTruncation(t, original);
      var pending := TruncateFirstRanked(t, [], original).value;
      NonNegativeOfSameStrikes(original, pending);
    }
  }

  /** What the forward filter for a slice promises of the floor: unless the slice fell back
      to the strike safeguard or the last resort set every premium to DF·F, every quote of the
      set is above the floor implied by the filtered slices, but possibly the first-ranked
      one; and that one too when there was room for it below DF·F. */
  lemma ForwardFilterKeepsFloor(t: SliceTerms, previous: seq<FilteredSlice>, original: seq<Quote>, shuffle: Shuffle)
    requires PositiveTerms(t) && AllReady(previous) && NonNegativeStrikes(original) && IsShuffle(shuffle)
    ensures var r := ForwardFilterForIndex(t, previous, original, shuffle);
            r.Ok? ==> && |original| > 0
                      && (|| FloorKeptBesidesFirst(previous, t, r.value.consistentSet, original[0])
                          || AtMaximum(t, r.value.consistentSet)
                          || r == StrikeSafeguard(t, original, shuffle))
    ensures var r := ForwardFilterForIndex(t, previous, original, shuffle);
            r.Ok? && |original| > 0 && RoomForFirstRanked(t, previous, original[0]) ==>
              || FloorKept(previous, t, r.value.consistentSet)
              || AtMaximum(t, r.value.consistentSet)
              || r == StrikeSafeguard(t, original, shuffle)
  {
    if |original| > 0 && TruncateFirstRanked(t, previous, original).Ok? {
      var pending := TruncateFirstRanked(t, previous, original).value;
      NonNegativeOfSameStrikes(original, pending);
      TruncatedFirstRanked(t, previous, original);
      var o := RetryFrom(t, previous, pending, BumpSize(t, pending[0]), 0);
      if o.Ok? && !o.value.failed {
        var c := o.value.state.consistentSet;
        if FloorKeptBesidesFirst(previous, t, c, pending[0]) {
          var q :| SameContract(q, pending[0]) && FloorKeptBesides(previous, t, c, q);
          assert SameContract(q, original[0]);
        }
      }
    }
  }

  /** The first-ranked quote after the truncation is a repricing of the first-ranked quote,
      and fits the retries when there is room for it. */
  lemma TruncatedFirstRanked(t: SliceTerms, previous: seq<FilteredSlice>, original: seq<Quote>)
    requires PositiveTerms(t) && AllReady(previous) && |original| > 0
    requires TruncateFirstRanked(t, previous, original).Ok?
    ensures var q := TruncateFirstRanked(t, previous, original).value[0];
            SameContract(q, original[0])
    ensures var q := TruncateFirstRanked(t, previous, original).value[0];
            RoomForFirstRanked(t, previous, original[0]) ==> FirstRankedFits(t, previous, q, BumpSize(t, q), 0)
  {
    if RoomForFirstRanked(t, previous, original[0]) {
      TruncatedFits(t, previous, original[0]);
    }
  }

  /** An account of the truncated list is an account of the list before the truncation. */
  lemma TruncateAccounted(t: SliceTerms, previous: seq<FilteredSlice>, original: seq<Quote>, pending: seq<Quote>, st: SliceState)
    requires PositiveTerms(t) && AllReady(previous) && |original| > 0
    requires TruncateFirstRanked(t, previous, original) == Ok(pending)
    requires Accounted(t, pending, st)
    ensures Accounted(t, original, st)
  {
    forall j | 0 <= j < |pending|
      ensures DerivedFrom(pending[j], original)
    {
      assert SameContract(pending[j], original[j]);
    }
    AccountedOfRepriced(t, pending, original, st);
  }

  /** Accounted lists have as many quotes as the pending list. */
  lemma AccountedLength(t: SliceTerms, pending: seq<Quote>, st: SliceState)
    requires Accounted(t, pending, st)
    ensures |st.sortedQuoteList| == |pending|
  {
    assert |multiset(Strikes(st.sortedQuoteList))| == |multiset(Strikes(pending))|;
    assert |Strikes(st.sortedQuoteList)| == |Strikes(pending)|;
  }

  /** The pending list of attempt `a` (from 0) of the surface safeguard: the master copy, and
      after an unacceptable attempt the master copy shuffled as a whole. */
  function SurfaceAttemptInput(master: seq<Quote>, shuffle: Shuffle, a: nat): (r: seq<Quote>)
    requires IsShuffle(shuffle)
    ensures multiset(r) == multiset(master)
    ensures |r| == |master|
  {
    if a == 0 then master
    else
      var r := shuffle(a, master);
      assert |r| == |multiset(r)|;
      r
  }

  /** Attempt `a` of the surface safeguard: the forward filter for the slice on the attempt's
      pending list. It accounts for the master copy, and fails only by a lookup. */
  function SurfaceAttempt(t: SliceTerms, previous: seq<FilteredSlice>, master: seq<Quote>, shuffle: Shuffle, a: nat): (r: Result<SliceState>)
    requires PositiveTerms(t) && AllReady(previous) && |master| > 0 && NonNegativeStrikes(master) && IsShuffle(shuffle)
    ensures r.Err? ==> r.error == LookupFailed
    ensures r.Ok? ==> Accounted(t, master, r.value) && |r.value.sortedQuoteList| == |master|
    ensures Candidates(master) && AllDistinctReady(previous) ==>
              r.Ok? && StrictlySortedBy(r.value.consistentSet, QuoteLess)
  {
    var input := SurfaceAttemptInput(master, shuffle, a);
    PermutationKeepsNonNegativeStrikes(master, input);
    CandidatesOfPermutation(master, input);
    var r := ForwardFilterForIndex(t, previous, input, shuffle);
    if r.Ok? then
      AccountedOfPermutation(t, input, master, r.value);
      AccountedLength(t, master, r.value);
      r
    else r
  }

  /** The percentage attempt `a` of the surface safeguard reaches, or the error it raises. */
  function SurfaceAttemptPercentage(t: SliceTerms, previous: seq<FilteredSlice>, master: seq<Quote>, shuffle: Shuffle, a: nat): (p: Result<real>)
    requires PositiveTerms(t) && AllReady(previous) && |master| > 0 && NonNegativeStrikes(master) && IsShuffle(shuffle)
    ensures p.Err? <==> SurfaceAttempt(t, previous, master, shuffle, a).Err?
    ensures p.Err? ==> p.error == LookupFailed
    ensures p.Ok? ==> p == PercentageOfQuotesAdjusted(SurfaceAttempt(t, previous, master, shuffle, a).value.sortedQuoteList)
  {
    var st :- SurfaceAttempt(t, previous, master, shuffle, a);
    PercentageOfQuotesAdjusted(st.sortedQuoteList)
  }

  /** The percentages the attempts of the surface safeguard would reach. */
  function SurfaceAttemptPercentages(t: SliceTerms, previous: seq<FilteredSlice>, master: seq<Quote>, shuffle: Shuffle, n: nat): (r: seq<Result<real>>)
    requires PositiveTerms(t) && AllReady(previous) && |master| > 0 && NonNegativeStrikes(master) && IsShuffle(shuffle)
    ensures |r| == n
    ensures forall a :: 0 <= a < n ==> r[a] == SurfaceAttemptPercentage(t, previous, master, shuffle, a)
    ensures forall a :: 0 <= a < n ==> (r[a].Err? ==> r[a].error == LookupFailed)
  {
    seq(n, a requires 0 <= a < n => SurfaceAttemptPercentage(t, previous, master, shuffle, a))
  }

  /** The attempt the surface safeguard keeps, or the error of the first failing attempt it
      makes; the attempt kept succeeded. */
  function BestSurfaceAttempt(t: SliceTerms, previous: seq<FilteredSlice>, master: seq<Quote>, shuffle: Shuffle): (r: Result<nat>)
    requires PositiveTerms(t) && AllReady(previous) && |master| > 0 && NonNegativeStrikes(master) && IsShuffle(shuffle)
    ensures r.Ok? ==> r.value < MaximumNumberOfAttempts && SurfaceAttempt(t, previous, master, shuffle, r.value).Ok?
    ensures r.Err? ==> r.error == LookupFailed
    ensures Candidates(master) && AllDistinctReady(previous) ==> r.Ok?
  {
    var pcts := SurfaceAttemptPercentages(t, previous, master, shuffle, MaximumNumberOfAttempts);
    ChooseFailsByLookup(pcts);
    SurfaceAttemptsSucceed(t, previous, master, shuffle, pcts);
    var c := Choose(pcts);
    if c.Err? then Err(c.error) else Ok(c.value.best)
  }

  /** On distinct positive strikes after slices filtered from distinct strikes, no attempt of
      the surface safeguard fails. */
  lemma SurfaceAttemptsSucceed(t: SliceTerms, previous: seq<FilteredSlice>, master: seq<Quote>, shuffle: Shuffle,
                               pcts: seq<Result<real>>)
    requires PositiveTerms(t) && AllReady(previous) && |master| > 0 && NonNegativeStrikes(master) && IsShuffle(shuffle)
    requires pcts == SurfaceAttemptPercentages(t, previous, master, shuffle, MaximumNumberOfAttempts)
    ensures Candidates(master) && AllDistinctReady(previous) ==>
              forall a :: 0 <= a < |pcts| ==> pcts[a].Ok?
  {
    if Candidates(master) && AllDistinctReady(previous) {
      forall a | 0 <= a < |pcts|
        ensures pcts[a].Ok?
      {
        assert pcts[a] == SurfaceAttemptPercentage(t, previous, master, shuffle, a);
      }
    }
  }

  /** `forward_surface_filter_for_index_with_safeguard`: up to MAXIMUM_NUMBER_OF_ATTEMPTS runs
      of the forward filter for the slice, each after the first on the slice with its whole
      quote list shuffled; the run adjusting the smallest share of quotes is kept. */
  function ForwardSafeguard(t: SliceTerms, previous: seq<FilteredSlice>, master: seq<Quote>, shuffle: Shuffle): (r: Result<SliceState>)
    requires PositiveTerms(t) && AllReady(previous) && NonNegativeStrikes(master) && IsShuffle(shuffle)
    ensures |master| == 0 ==> r == Err(IndexOutOfRange)
    ensures r.Err? ==> r.error == IndexOutOfRange || r.error == LookupFailed
    ensures r.Err? ==> (r.error == IndexOutOfRange <==> |master| == 0)
    ensures r.Ok? ==> Accounted(t, master, r.value)
    ensures r.Ok? ==> BestSurfaceAttempt(t, previous, master, shuffle).Ok?
                      && r == SurfaceAttempt(t, previous, master, shuffle, BestSurfaceAttempt(t, previous, master, shuffle).value)
    ensures Candidates(master) && AllDistinctReady(previous) ==>
              && (r.Err? <==> |master| == 0)
              && (r.Ok? ==> StrictlySortedBy(r.value.consistentSet, QuoteLess))
  {
    if |master| == 0 then Err(IndexOutOfRange)
    else
      var best :- BestSurfaceAttempt(t, previous, master, shuffle);
      SurfaceAttempt(t, previous, master, shuffle, best)
  }

  /** A slice as the surface receives it: its terms and its quotes in ranking order. */
  datatype SliceInput = SliceInput(terms: SliceTerms, quotes: seq<Quote>)

  /** Market terms, and no strike left of the strike-0 quote. */
  ghost predicate WellFormedInput(x: SliceInput) {
    PositiveTerms(x.terms) && NonNegativeStrikes(x.quotes)
  }

  /** The filter the surface applies to each later slice: with or without the safeguard. */
  function FilterForIndex(x: SliceInput, previous: seq<FilteredSlice>, useSafeguard: bool, shuffle: Shuffle): (r: Result<SliceState>)
    requires WellFormedInput(x) && AllReady(previous) && IsShuffle(shuffle)
    ensures |x.quotes| == 0 ==> r.Err?
    ensures r.Err? ==> r.error == IndexOutOfRange || r.error == LookupFailed
    ensures r.Err? ==> (r.error == IndexOutOfRange <==> |x.quotes| == 0)
    ensures r.Ok? ==> Accounted(x.terms, x.quotes, r.value)
    ensures Candidates(x.quotes) && AllDistinctReady(previous) ==>
              && (r.Err? <==> |x.quotes| == 0)
              && (r.Ok? ==> StrictlySortedBy(r.value.consistentSet, QuoteLess))
  {
    if useSafeguard then ForwardSafeguard(x.terms, previous, x.quotes, shuffle)
    else ForwardFilterForIndex(x.terms, previous, x.quotes, shuffle)
  }

  /** `filter_function` of `filter_surface_forward`: a slice and the slices filtered before
      it to the state the slice reaches. */
  type SliceFilter = (SliceInput, seq<FilteredSlice>) --> Result<SliceState>

  /** What the surface relies on of its slice filter: it applies to every well-formed slice
      after ready slices, fails with IndexError exactly on an empty slice and otherwise only by
      a lookup, accounts for the slice, and on distinct positive strikes after slices filtered
      from distinct strikes fails only on an empty slice and keeps the set strictly sorted. */
  ghost predicate IsSliceFilter(filter: SliceFilter) {
    forall x, previous :: WellFormedInput(x) && AllReady(previous) ==>
      && filter.requires(x, previous)
      && (|x.quotes| == 0 ==> filter(x, previous).Err?)
      && (filter(x, previous).Err? ==> filter(x, previous).error == IndexOutOfRange || filter(x, previous).error == LookupFailed)
      && (filter(x, previous).Err? ==> (filter(x, previous).error == IndexOutOfRange <==> |x.quotes| == 0))
      && (filter(x, previous).Ok? ==> Accounted(x.terms, x.quotes, filter(x, previous).value))
      && (Candidates(x.quotes) && AllDistinctReady(previous) ==>
            && (filter(x, previous).Err? <==> |x.quotes| == 0)
            && (filter(x, previous).Ok? ==> StrictlySortedBy(filter(x, previous).value.consistentSet, QuoteLess)))
  }

  /** The filter chosen by `use_safeguard`. */
  function SurfaceSliceFilter(useSafeguard: bool, shuffle: Shuffle): (filter: SliceFilter)
    requires IsShuffle(shuffle)
    ensures IsSliceFilter(filter)
    ensures forall x, previous :: WellFormedInput(x) && AllReady(previous) ==>
              filter(x, previous) == FilterForIndex(x, previous, useSafeguard, shuffle)
  {
    (x, previous) requires WellFormedInput(x) && AllReady(previous) => FilterForIndex(x, previous, useSafeguard, shuffle)
  }

  /** The filtered slice recorded for a slice input and the state its filter reached. */
  function Recorded(x: SliceInput, st: SliceState): (p: FilteredSlice)
    ensures p.terms == x.terms && p.consistentSet == st.consistentSet && p.sortedQuoteList == st.sortedQuoteList
  {
    FilteredSlice(x.terms, st.consistentSet, st.sortedQuoteList)
  }

  /** Some slice from index `i` on has no quotes. */
  predicate SomeEmptyFrom(slices: seq<SliceInput>, i: nat)
    decreases |slices| - i
  {
    i < |slices| && (|slices[i].quotes| == 0 || SomeEmptyFrom(slices, i + 1))
  }

  lemma {:induction false} SomeEmptyFromMeansSomeEmpty(slices: seq<SliceInput>, i: nat)
    ensures SomeEmptyFrom(slices, i) <==> exists j :: i <= j < |slices| && |slices[j].quotes| == 0
    decreases |slices| - i
  {
    if i < |slices| {
      SomeEmptyFromMeansSomeEmpty(slices, i + 1);
      if SomeEmptyFrom(slices, i + 1) {
        var j :| i + 1 <= j < |slices| && |slices[j].quotes| == 0;
      }
    }
  }

  /** Earlier slices of ready slices are ready. */
  lemma AllReadyPrefix(s: seq<FilteredSlice>, j: nat)
    requires AllReady(s) && j <= |s|
    ensures AllReady(s[..j])
  {
    forall i | 0 <= i < j
      ensures Ready(s[..j][i])
    {
      assert s[..j][i] == s[i];
    }
  }

  /** A list that starts with `done + [p]` starts with `done`. */
  lemma PrefixOfExtended(r: seq<FilteredSlice>, done: seq<FilteredSlice>, p: FilteredSlice)
    requires |done| < |r| && r[..|done| + 1] == done + [p]
    ensures r[..|done|] == done && r[|done|] == p
  {
    assert r[..|done|] == r[..|done| + 1][..|done|];
  }

  /** Every slice holds distinct positive strikes. */
  ghost predicate AllCandidates(slices: seq<SliceInput>) {
    forall j :: 0 <= j < |slices| ==> Candidates(slices[j].quotes)
  }

  /** Each recorded slice is accounted for by the state its filter reached. */
  ghost predicate RecordsAccounted(slices: seq<SliceInput>, done: seq<FilteredSlice>)
    requires |done| <= |slices|
  {
    forall j :: 0 <= j < |done| ==>
      && done[j].terms == slices[j].terms
      && Accounted(slices[j].terms, slices[j].quotes, SliceState(done[j].consistentSet, done[j].sortedQuoteList))
  }

  /** The loop of `filter_surface_forward` from the slice after the last filtered one: each
      slice is filtered against all slices filtered before it, then recorded. The first
      error ends the loop: an empty slice raises IndexError, and a lookup may raise; on
      distinct positive strikes only an empty slice does. */
  function FilterFrom(slices: seq<SliceInput>, done: seq<FilteredSlice>, filter: SliceFilter): (r: Result<seq<FilteredSlice>>)
    requires |done| <= |slices| && AllReady(done) && IsSliceFilter(filter)
    requires forall j :: 0 <= j < |slices| ==> WellFormedInput(slices[j])
    requires RecordsAccounted(slices, done)
    requires AllCandidates(slices) ==> AllDistinctReady(done)
    ensures SomeEmptyFrom(slices, |done|) ==> r.Err?
    ensures r.Err? ==> r.error == IndexOutOfRange || r.error == LookupFailed
    ensures r.Err? && r.error == IndexOutOfRange ==> SomeEmptyFrom(slices, |done|)
    ensures AllCandidates(slices) ==> (r.Err? <==> SomeEmptyFrom(slices, |done|))
    ensures r.Ok? ==> |r.value| == |slices| && r.value[..|done|] == done
    ensures r.Ok? ==> AllReady(r.value) && RecordsAccounted(slices, r.value)
    ensures r.Ok? && AllCandidates(slices) ==> AllDistinctReady(r.value)
    decreases |slices| - |done|
  {
    var i := |done|;
    if i == |slices| then
      assert done[..i] == done;
      Ok(done)
    else
      assert WellFormedInput(slices[i]);
      var f := filter(slices[i], done);
      if f.Err? then Err(f.error)
      else
        var st := f.value;
        var p := Recorded(slices[i], st);
        AccountedIsReady(slices[i].terms, slices[i].quotes, st);
        var r := FilterFrom(slices, done + [p], filter);
        if r.Ok? then
          PrefixOfExtended(r.value, done, p);
          r
        else r
  }

  /** Every slice the loop filters is filtered against exactly the slices recorded before it. */
  lemma {:induction false} FilterFromSteps(slices: seq<SliceInput>, done: seq<FilteredSlice>, filter: SliceFilter, j: nat)
    requires |done| <= |slices| && AllReady(done) && IsSliceFilter(filter)
    requires forall k :: 0 <= k < |slices| ==> WellFormedInput(slices[k])
    requires RecordsAccounted(slices, done)
    requires AllCandidates(slices) ==> AllDistinctReady(done)
    requires FilterFrom(slices, done, filter).Ok?
    requires |done| <= j < |slices|
    ensures var r := FilterFrom(slices, done, filter).value;
            && AllReady(r[..j])
            && filter(slices[j], r[..j]) == Ok(SliceState(r[j].consistentSet, r[j].sortedQuoteList))
    decreases |slices| - |done|
  {
    var i := |done|;
    assert WellFormedInput(slices[i]);
    var st := filter(slices[i], done).value;
    AccountedIsReady(slices[i].terms, slices[i].quotes, st);
    var done' := done + [Recorded(slices[i], st)];
    var r := FilterFrom(slices, done', filter).value;
    assert FilterFrom(slices, done, filter).value == r;
    AllReadyPrefix(r, j);
    if j == i {
      PrefixOfExtended(r, done, Recorded(slices[i], st));
    } else {
      FilterFromSteps(slices, done', filter, j);
    }
  }

  /** The filter the surface applies to its first slice. */
  type FirstSliceFilter = SliceInput --> Result<SliceState>

  /** What the surface relies on of its first-slice filter: it applies to every well-formed
      slice, fails with IndexError exactly on an empty one and otherwise only by a lookup,
      filters the slice, and on distinct positive strikes fails only on an empty slice and
      keeps the set strictly sorted. */
  ghost predicate IsFirstSliceFilter(first: FirstSliceFilter) {
    forall x :: WellFormedInput(x) ==>
      && first.requires(x)
      && (|x.quotes| == 0 ==> first(x).Err?)
      && (first(x).Err? ==> first(x).error == IndexOutOfRange || first(x).error == LookupFailed)
      && (first(x).Err? ==> (first(x).error == IndexOutOfRange <==> |x.quotes| == 0))
      && (first(x).Ok? ==> Filtered(x.terms, x.quotes, first(x).value))
      && (Candidates(x.quotes) ==>
            && (first(x).Err? <==> |x.quotes| == 0)
            && (first(x).Ok? ==> StrictlySortedBy(first(x).value.consistentSet, QuoteLess)))
  }

  /** `filter_in_strike_dimension_with_safeguard` on a slice as the surface holds it. */
  function FirstSliceSafeguard(x: SliceInput, shuffle: Shuffle): (r: Result<SliceState>)
    requires WellFormedInput(x) && IsShuffle(shuffle)
    ensures r == StrikeSafeguard(x.terms, x.quotes, shuffle)
    ensures |x.quotes| == 0 ==> r.Err?
    ensures r.Err? ==> r.error == IndexOutOfRange || r.error == LookupFailed
    ensures r.Err? ==> (r.error == IndexOutOfRange <==> |x.quotes| == 0)
    ensures r.Ok? ==> Filtered(x.terms, x.quotes, r.value)
    ensures Candidates(x.quotes) ==>
              && (r.Err? <==> |x.quotes| == 0)
              && (r.Ok? ==> StrictlySortedBy(r.value.consistentSet, QuoteLess))
  {
    StrikeSafeguard(x.terms, x.quotes, shuffle)
  }

  /** The strike safeguard, as the surface calls it on its first slice. */
  function StrikeSliceFilter(shuffle: Shuffle): (first: FirstSliceFilter)
    requires IsShuffle(shuffle)
    ensures IsFirstSliceFilter(first)
    ensures forall x :: WellFormedInput(x) ==> first(x) == StrikeSafeguard(x.terms, x.quotes, shuffle)
  {
    x requires WellFormedInput(x) => FirstSliceSafeguard(x, shuffle)
  }

  /** The surface filter with its two filters given: the first slice by `first`, then every
      later slice by `filter` against all slices filtered before it. Without slices there is
      no first slice (IndexError); an empty slice raises IndexError when its turn comes, and
      a lookup may raise before it, which on distinct positive strikes never happens. */
  function FilterSurface(slices: seq<SliceInput>, first: FirstSliceFilter, filter: SliceFilter): (r: Result<seq<FilteredSlice>>)
    requires IsFirstSliceFilter(first) && IsSliceFilter(filter)
    requires forall j :: 0 <= j < |slices| ==> WellFormedInput(slices[j])
    ensures |slices| == 0 || SomeEmptyFrom(slices, 0) ==> r.Err?
    ensures r.Err? ==> r.error == IndexOutOfRange || r.error == LookupFailed
    ensures r.Err? && r.error == IndexOutOfRange ==> |slices| == 0 || SomeEmptyFrom(slices, 0)
    ensures AllCandidates(slices) ==> (r.Err? <==> |slices| == 0 || SomeEmptyFrom(slices, 0))
    ensures r.Ok? ==> |r.value| == |slices| && AllReady(r.value) && RecordsAccounted(slices, r.value)
    ensures r.Ok? && AllCandidates(slices) ==> AllDistinctReady(r.value)
    ensures r.Ok? ==> |slices| > 0 && WellFormedInput(slices[0])
                      && first(slices[0]) == Ok(SliceState(r.value[0].consistentSet, r.value[0].sortedQuoteList))
  {
    if |slices| == 0 then Err(IndexOutOfRange)
    else
      var x := slices[0];
      assert WellFormedInput(x);
      var f := first(x);
      if f.Err? then Err(f.error)
      else
        var st := f.value;
        FilteredIsAccounted(x.terms, x.quotes, st);
        AccountedIsReady(x.terms, x.quotes, st);
        var r := FilterFrom(slices, [Recorded(x, st)], filter);
        if r.Ok? then
          assert r.value[0] == r.value[..1][0];
          r
        else r
  }

  /** `filter_surface_forward`: the first slice, which has no slices filtered before it, by
      the strike filter with the safeguard; then every later slice in order of expiry by the
      calendar filter, with or without its safeguard. */
  function FilterSurfaceForward(slices: seq<SliceInput>, useSafeguard: bool, shuffle: Shuffle): (r: Result<seq<FilteredSlice>>)
    requires IsShuffle(shuffle)
    requires forall j :: 0 <= j < |slices| ==> WellFormedInput(slices[j])
    ensures |slices| == 0 || SomeEmptyFrom(slices, 0) ==> r.Err?
    ensures r.Err? ==> r.error == IndexOutOfRange || r.error == LookupFailed
    ensures r.Err? && r.error == IndexOutOfRange ==> |slices| == 0 || SomeEmptyFrom(slices, 0)
    ensures AllCandidates(slices) ==> (r.Err? <==> |slices| == 0 || SomeEmptyFrom(slices, 0))
    ensures r.Ok? ==> |r.value| == |slices| && AllReady(r.value) && RecordsAccounted(slices, r.value)
    ensures r.Ok? && AllCandidates(slices) ==> AllDistinctReady(r.value)
  {
    FilterSurface(slices, StrikeSliceFilter(shuffle), SurfaceSliceFilter(useSafeguard, shuffle))
  }

  /** Every later slice is filtered against exactly the slices recorded before it. */
  lemma FilterSurfaceSteps(slices: seq<SliceInput>, first: FirstSliceFilter, filter: SliceFilter, j: nat)
    requires IsFirstSliceFilter(first) && IsSliceFilter(filter)
    requires forall k :: 0 <= k < |slices| ==> WellFormedInput(slices[k])
    requires FilterSurface(slices, first, filter).Ok? && 0 < j < |slices|
    ensures var r := FilterSurface(slices, first, filter).value;
            && AllReady(r[..j]) && WellFormedInput(slices[j])
            && filter(slices[j], r[..j]) == Ok(SliceState(r[j].consistentSet, r[j].sortedQuoteList))
  {
    var r := FilterSurface(slices, first, filter).value;
    var x := slices[0];
    assert WellFormedInput(x);
    var st0 := first(x).value;
    FilteredIsAccounted(x.terms, x.quotes, st0);
    AccountedIsReady(x.terms, x.quotes, st0);
    var done := [Recorded(x, st0)];
    assert FilterFrom(slices, done, filter).value == r;
    FilterFromSteps(slices, done, filter, j);
  }

  /** The surface filters its first slice by the strike safeguard. */
  lemma FilterSurfaceForwardFirst(slices: seq<SliceInput>, useSafeguard: bool, shuffle: Shuffle)
    requires IsShuffle(shuffle)
    requires forall k :: 0 <= k < |slices| ==> WellFormedInput(slices[k])
    requires FilterSurfaceForward(slices, useSafeguard, shuffle).Ok?
    ensures var r := FilterSurfaceForward(slices, useSafeguard, shuffle).value;
            && |slices| > 0 && WellFormedInput(slices[0])
            && StrikeSafeguard(slices[0].terms, slices[0].quotes, shuffle)
               == Ok(SliceState(r[0].consistentSet, r[0].sortedQuoteList))
  {
    var first := StrikeSliceFilter(shuffle);
    assert FilterSurfaceForward(slices, useSafeguard, shuffle)
           == FilterSurface(slices, first, SurfaceSliceFilter(useSafeguard, shuffle));
  }

  /** The surface filters every later slice by the chosen calendar filter, against exactly the
      slices filtered before it. */
  lemma FilterSurfaceForwardLater(slices: seq<SliceInput>, useSafeguard: bool, shuffle: Shuffle, j: nat)
    requires IsShuffle(shuffle)
    requires forall k :: 0 <= k < |slices| ==> WellFormedInput(slices[k])
    requires FilterSurfaceForward(slices, useSafeguard, shuffle).Ok? && 0 < j < |slices|
    ensures var r := FilterSurfaceForward(slices, useSafeguard, shuffle).value;
            && AllReady(r[..j]) && WellFormedInput(slices[j])
            && FilterForIndex(slices[j], r[..j], useSafeguard, shuffle)
               == Ok(SliceState(r[j].consistentSet, r[j].sortedQuoteList))
  {
    var first := StrikeSliceFilter(shuffle);
    var filter := SurfaceSliceFilter(useSafeguard, shuffle);
    assert FilterSurfaceForward(slices, useSafeguard, shuffle) == FilterSurface(slices, first, filter);
    FilterSurfaceSteps(slices, first, filter, j);
  }

  /** The key of `QuoteSurface.__init__`'s `sort(key=lambda slice: slice.expiry)`. */
  predicate ExpiryLess(a: SliceInput, b: SliceInput) {
    a.terms.expiry < b.terms.expiry
  }

  lemma ExpiryLessIsStrictWeakOrder()
    ensures StrictWeakOrder(ExpiryLess)
  {
    forall a: SliceInput, b: SliceInput, c: SliceInput
      ensures OrderedTriple(a, b, c, ExpiryLess)
    {
    }
  }

  /** A slice as `QuoteSlice.__init__` leaves it: its pending list sorted by ranking quantity. */
  function RankedSlice(x: SliceInput): (y: SliceInput)
    ensures y.terms == x.terms && multiset(y.quotes) == multiset(x.quotes) && |y.quotes| == |x.quotes|
    ensures forall i, j :: 0 <= i < j < |y.quotes| ==> y.quotes[i].rankingQuantity <= y.quotes[j].rankingQuantity
  {
    SliceInput(x.terms, RankSorted(x.quotes))
  }

  function RankedSlices(slices: seq<SliceInput>): (r: seq<SliceInput>)
    ensures |r| == |slices| && forall i :: 0 <= i < |slices| ==> r[i] == RankedSlice(slices[i])
  {
    seq(|slices|, i requires 0 <= i < |slices| => RankedSlice(slices[i]))
  }

  /** The slices as `QuoteSurface.__init__` holds them: each slice ranked at its construction,
      and the list sorted (stably) by expiry. */
  function SortedSlices(slices: seq<SliceInput>): (r: seq<SliceInput>)
    ensures |r| == |slices|
    ensures forall i, j :: 0 <= i < j < |r| ==> r[i].terms.expiry <= r[j].terms.expiry
  {
    ExpiryLessIsStrictWeakOrder();
    InsertionSortSorted(RankedSlices(slices), ExpiryLess);
    InsertionSort(RankedSlices(slices), ExpiryLess)
  }

  /** Sorting the slices only reorders them. */
  lemma SortedSlicesPermutes(slices: seq<SliceInput>)
    ensures multiset(SortedSlices(slices)) == multiset(RankedSlices(slices))
  {
    ExpiryLessIsStrictWeakOrder();
    InsertionSortSorted(RankedSlices(slices), ExpiryLess);
  }

  /** The surface holds exactly the ranked slices it was given. */
  lemma SortedSlicesMembers(slices: seq<SliceInput>)
    ensures forall y :: y in SortedSlices(slices) <==> exists k :: 0 <= k < |slices| && y == RankedSlice(slices[k])
  {
    var r := SortedSlices(slices);
    var ranked := RankedSlices(slices);
    SortedSlicesPermutes(slices);
    forall y
      ensures y in r <==> exists k :: 0 <= k < |slices| && y == RankedSlice(slices[k])
    {
      calc {
        y in r;
        y in multiset(r);
        y in multiset(ranked);
        y in ranked;
      }
      if y in ranked {
        var k :| 0 <= k < |ranked| && ranked[k] == y;
        assert y == RankedSlice(slices[k]);
      }
      if exists k :: 0 <= k < |slices| && y == RankedSlice(slices[k]) {
        var k :| 0 <= k < |slices| && y == RankedSlice(slices[k]);
        assert ranked[k] == y;
      }
    }
  }

  /** Ranking a slice keeps it well formed, and keeps its strikes distinct and positive. */
  lemma RankedSliceKeeps(x: SliceInput)
    ensures WellFormedInput(x) ==> WellFormedInput(RankedSlice(x))
    ensures Candidates(x.quotes) ==> Candidates(RankedSlice(x).quotes)
  {
    var y := RankedSlice(x);
    if NonNegativeStrikes(x.quotes) {
      PermutationKeepsNonNegativeStrikes(x.quotes, y.quotes);
    }
    CandidatesOfPermutation(x.quotes, y.quotes);
  }

  /** Every sorted slice is the ranking of a given slice. */
  lemma SortedSliceOrigin(slices: seq<SliceInput>, j: nat)
    requires j < |SortedSlices(slices)|
    ensures exists k :: 0 <= k < |slices| && SortedSlices(slices)[j] == RankedSlice(slices[k])
  {
    SortedSlicesMembers(slices);
    assert SortedSlices(slices)[j] in SortedSlices(slices);
  }

  /** Sorting the slices keeps them well formed, keeps their strikes distinct and positive
      where they were, and keeps which of them are empty. */
  lemma SortedSlicesWellFormed(slices: seq<SliceInput>)
    requires forall j :: 0 <= j < |slices| ==> WellFormedInput(slices[j])
    ensures forall j :: 0 <= j < |slices| ==> WellFormedInput(SortedSlices(slices)[j])
    ensures AllCandidates(slices) ==> AllCandidates(SortedSlices(slices))
    ensures SomeEmptyFrom(SortedSlices(slices), 0) <==> exists j :: 0 <= j < |slices| && |slices[j].quotes| == 0
  {
    var r := SortedSlices(slices);
    forall j | 0 <= j < |r|
      ensures WellFormedInput(r[j])
      ensures AllCandidates(slices) ==> Candidates(r[j].quotes)
    {
      SortedSliceOrigin(slices, j);
      var k :| 0 <= k < |slices| && r[j] == RankedSlice(slices[k]);
      RankedSliceKeeps(slices[k]);
    }
    SortedSlicesEmpty(slices);
  }

  /** Sorting the slices keeps which of them are empty. */
  lemma SortedSlicesEmpty(slices: seq<SliceInput>)
    ensures SomeEmptyFrom(SortedSlices(slices), 0) <==> exists j :: 0 <= j < |slices| && |slices[j].quotes| == 0
  {
    var r := SortedSlices(slices);
    SortedSlicesMembers(slices);
    SomeEmptyFromMeansSomeEmpty(r, 0);
    if exists j :: 0 <= j < |slices| && |slices[j].quotes| == 0 {
      var j :| 0 <= j < |slices| && |slices[j].quotes| == 0;
      assert RankedSlice(slices[j]) in r;
      var i :| 0 <= i < |r| && r[i] == RankedSlice(slices[j]);
    }
    if exists j :: 0 <= j < |r| && |r[j].quotes| == 0 {
      var j :| 0 <= j < |r| && |r[j].quotes| == 0;
      assert r[j] in r;
    }
  }

  /** The quote surface built from `slices` and filtered forward: every slice is first ranked
      and the slices ordered by expiry. No slices, or an empty one, make the filter fail
      (IndexError), and a lookup may make it fail too, which on distinct positive strikes
      never happens; otherwise it records every slice, in order of expiry, accounted for. */
  function FilterQuoteSurface(slices: seq<SliceInput>, useSafeguard: bool, shuffle: Shuffle): (r: Result<seq<FilteredSlice>>)
    requires IsShuffle(shuffle)
    requires forall j :: 0 <= j < |slices| ==> WellFormedInput(slices[j])
    ensures |slices| == 0 || (exists j :: 0 <= j < |slices| && |slices[j].quotes| == 0) ==> r.Err?
    ensures r.Err? ==> r.error == IndexOutOfRange || r.error == LookupFailed
    ensures r.Err? && r.error == IndexOutOfRange ==>
              |slices| == 0 || exists j :: 0 <= j < |slices| && |slices[j].quotes| == 0
    ensures AllCandidates(slices) ==>
              (r.Err? <==> |slices| == 0 || exists j :: 0 <= j < |slices| && |slices[j].quotes| == 0)
    ensures r.Ok? ==> |r.value| == |slices| && AllReady(r.value) && RecordsAccounted(SortedSlices(slices), r.value)
    ensures r.Ok? && AllCandidates(slices) ==> AllDistinctReady(r.value)
    ensures r.Ok? ==> forall i, j :: 0 <= i < j < |r.value| ==> r.value[i].terms.expiry <= r.value[j].terms.expiry
  {
    SortedSlicesWellFormed(slices);
    FilterQuoteSurfaceOrdered(slices, useSafeguard, shuffle);
    FilterSurfaceForward(SortedSlices(slices), useSafeguard, shuffle)
  }

  /** The records of a forward filter over the sorted slices come in expiry order. */
  lemma FilterQuoteSurfaceOrdered(slices: seq<SliceInput>, useSafeguard: bool, shuffle: Shuffle)
    requires IsShuffle(shuffle)
    requires forall j :: 0 <= j < |SortedSlices(slices)| ==> WellFormedInput(SortedSlices(slices)[j])
    ensures var r := FilterSurfaceForward(SortedSlices(slices), useSafeguard, shuffle);
            r.Ok? ==> forall i, j :: 0 <= i < j < |r.value| ==> r.value[i].terms.expiry <= r.value[j].terms.expiry
  {
    var sorted := SortedSlices(slices);
    var r := FilterSurfaceForward(sorted, useSafeguard, shuffle);
    if r.Ok? {
      RecordsKeepExpiryOrder(sorted, r.value);
    }
  }

  /** Records that account for expiry-ordered slices, one each, are in expiry order too. */
  lemma RecordsKeepExpiryOrder(slices: seq<SliceInput>, done: seq<FilteredSlice>)
    requires |done| == |slices| && RecordsAccounted(slices, done)
    requires forall i, j :: 0 <= i < j < |slices| ==> slices[i].terms.expiry <= slices[j].terms.expiry
    ensures forall i, j :: 0 <= i < j < |done| ==> done[i].terms.expiry <= done[j].terms.expiry
  {
    forall i, j | 0 <= i < j < |done|
      ensures done[i].terms.expiry <= done[j].terms.expiry
    {
      assert done[i].terms == slices[i].terms && done[j].terms == slices[j].terms;
    }
  }
}
