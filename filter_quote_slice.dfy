/** The quote slice of the original filter implementation
    (python/filter_implementation/quote_slice.py) as the object the source builds: its market
    data, the pending list sorted by ranking, the arbitrage-consistent set, and the flag the
    filters raise. Each pass is the source's loop over the lists, proved to leave the slice in
    the state the functions of FilterFills and FilterSafeguard describe; the properties of the
    filter are proved about those functions. */
module FilterQuoteSlice {
  import opened Common
  import opened Sorting
  import opened FilterQuote
  import opened FilterSliceBounds
  import opened FilterForwardBounds
  import opened FilterFills
  import opened FilterSafeguard

  class QuoteSlice {
    const terms: SliceTerms
    /** `sorted_quote_list`: the quotes still pending, in ranking order, or the filtered list. */
    var sortedQuoteList: seq<Quote>
    /** `arbitrage_consistent_strike_sorted_set`. */
    var consistentSet: seq<Quote>
    var isFiltered: bool

    /** The two lists, as the functions of the filter take them. */
    function State(): SliceState
      reads this
    {
      SliceState(consistentSet, sortedQuoteList)
    }

    /** `QuoteSlice.__init__`: the quotes in ascending ranking quantity, no set yet. The
        strike-0 quote `quote0` is `Quote0(terms)`; building it divides by the forward. */
    constructor (discountFactor: real, forward: real, expiry: real, quoteList: seq<Quote>, volSolver: VolSolver)
      requires forward != 0.0
      ensures terms == SliceTerms(discountFactor, forward, expiry, volSolver)
      ensures sortedQuoteList == RankSorted(quoteList)
      ensures consistentSet == [] && !isFiltered
    {
      terms := SliceTerms(discountFactor, forward, expiry, volSolver);
      sortedQuoteList := RankSorted(quoteList);
      consistentSet := [];
      isFiltered := false;
    }

    /** `deepcopy` of a slice whose lists are `st`. */
    constructor Copy(t: SliceTerms, st: SliceState, filtered: bool)
      ensures terms == t && State() == st && isFiltered == filtered
    {
      terms := t;
      sortedQuoteList := st.sortedQuoteList;
      consistentSet := st.consistentSet;
      isFiltered := filtered;
    }

    /** `pop_first_ranked_quote`: the first-ranked quote leaves the pending list (`list.remove`
        drops the first quote of its strike, which is that one). An empty list raises
        IndexError and is left alone. */
    method PopFirstRankedQuote() returns (r: Result<Quote>)
      modifies this
      ensures |old(sortedQuoteList)| == 0 ==> r == Err(IndexOutOfRange) && sortedQuoteList == old(sortedQuoteList)
      ensures |old(sortedQuoteList)| > 0 ==>
                r == Ok(old(sortedQuoteList)[0]) && sortedQuoteList == old(sortedQuoteList)[1..]
      ensures consistentSet == old(consistentSet) && isFiltered == old(isFiltered)
    {
      if |sortedQuoteList| == 0 {
        return Err(IndexOutOfRange);
      }
      var first := sortedQuoteList[0];
      sortedQuoteList := RemoveQuote(sortedQuoteList, first);
      r := Ok(first);
    }

    /** `compute_initial_arbitrage_consistent_set`, with the assignment of its result to the
        set in `filter_in_strike_dimension`. */
    method ComputeInitialArbitrageConsistentSet() returns (r: Result<()>)
      requires terms.forward != 0.0 && FirstStrikeNonNegative(sortedQuoteList)
      modifies this
      ensures r.Err? <==> |old(sortedQuoteList)| == 0
      ensures r.Err? ==> r.error == IndexOutOfRange && State() == old(State())
      ensures r.Ok? ==> State() == InitialSet(terms, old(sortedQuoteList))
      ensures isFiltered == old(isFiltered)
    {
      var first :- PopFirstRankedQuote();
      consistentSet := [Quote0(terms), TruncateToTheoreticalBounds(terms, first)];
      r := Ok(());
    }

    /** `is_valid_quote` (with earlier filtered slices, `is_valid_quote_forward_filtering` of
        quote_surface.py) for the first of the quotes `rest` still to visit, against the set
        `s` and the pending list `list`: whether that quote lies within its bounds. Its answer
        is the turn the initial fill takes; a lookup or forward bound that raises ends the
        fill. */
    method IsValidQuote(previous: seq<FilteredSlice>, s: seq<Quote>, list: seq<Quote>, rest: seq<Quote>) returns (r: Result<bool>)
      requires Shaped(terms, s) && AllReady(previous) && |rest| > 0
      requires multiset(Strikes(rest)) <= multiset(Strikes(list))
      ensures r.Err? ==> InitialFill(terms, previous, s, list, rest) == Err(r.error)
      ensures r.Ok? && r.value ==>
                && HasStrike(list, rest[0].strike) && Shaped(terms, InsortLeft(s, rest[0], QuoteLess))
                && multiset(Strikes(rest[1..])) <= multiset(Strikes(RemoveQuote(list, rest[0])))
                && InitialFill(terms, previous, s, list, rest)
                   == InitialFill(terms, previous, InsortLeft(s, rest[0], QuoteLess), RemoveQuote(list, rest[0]), rest[1..])
      ensures r.Ok? && !r.value ==>
                && multiset(Strikes(rest[1..])) <= multiset(Strikes(list))
                && InitialFill(terms, previous, s, list, rest) == InitialFill(terms, previous, s, list, rest[1..])
    {
      InitialFillStep(terms, previous, s, list, rest);
      r := IsValidForward(terms, previous, s, rest[0]);
    }

    /** The valid quote `q` joins the set (`insort_left`) and leaves the pending list
        (`list.remove`, which drops the first pending quote at its strike). */
    method AdmitQuote(q: Quote)
      requires HasStrike(sortedQuoteList, q.strike)
      modifies this
      ensures consistentSet == InsortLeft(old(consistentSet), q, QuoteLess)
      ensures sortedQuoteList == RemoveQuote(old(sortedQuoteList), q)
      ensures isFiltered == old(isFiltered)
    {
      consistentSet := InsortLeft(consistentSet, q, QuoteLess);
      sortedQuoteList := RemoveQuote(sortedQuoteList, q);
    }

    /** `initial_fill_arbitrage_consistent_set`, and with earlier filtered slices its forward
        twin in quote_surface.py: a pass over a copy of the pending list that inserts each
        valid quote into the set and removes it from the pending list. A lookup or forward
        bound that raises ends the pass with the slice part-way; the callers discard that
        state. */
    method InitialFillArbitrageConsistentSet(previous: seq<FilteredSlice>) returns (r: Result<()>)
      requires Shaped(terms, consistentSet) && AllReady(previous)
      modifies this
      ensures var spec := InitialFill(terms, previous, old(consistentSet), old(sortedQuoteList), old(sortedQuoteList));
              && (r.Ok? <==> spec.Ok?)
              && (r.Ok? ==> State() == spec.value && Shaped(terms, consistentSet))
              && (r.Err? ==> r.error == spec.error)
      ensures isFiltered == old(isFiltered)
    {
      var todo := sortedQuoteList;
      ghost var spec := InitialFill(terms, previous, consistentSet, sortedQuoteList, todo);
      while |todo| > 0
        invariant Shaped(terms, consistentSet)
        invariant multiset(Strikes(todo)) <= multiset(Strikes(sortedQuoteList))
        invariant spec == InitialFill(terms, previous, consistentSet, sortedQuoteList, todo)
        invariant isFiltered == old(isFiltered)
        decreases |todo|
      {
        var valid :- IsValidQuote(previous, consistentSet, sortedQuoteList, todo);
        if valid {
          AdmitQuote(todo[0]);
        }
        todo := todo[1..];
      }
      r := Ok(());
    }

    /** The forward bounds of the first of the quotes `rest` still to visit, against the set
        `s` (`compute_forward_bounds` of quote_surface.py, or the slice's own bounds when no
        earlier slice is filtered), as the adjusted fill takes them: the quote repriced into
        them is inserted and stays in front of the rest; a bound that raises ends the fill. */
    method AdjustmentBounds(previous: seq<FilteredSlice>, s: seq<Quote>, rest: seq<Quote>) returns (r: Result<(real, real)>)
      requires Shaped(terms, s) && AllReady(previous) && |rest| > 0
      ensures r.Err? ==> AdjustedFill(terms, previous, s, rest) == Err(r.error)
      ensures r.Ok? ==>
                var q := AdjustQuote(terms, rest[0], r.value.0, r.value.1);
                && Shaped(terms, InsortLeft(s, q, QuoteLess))
                && AdjustedFill(terms, previous, s, rest)
                   == Prepended([q], AdjustedFill(terms, previous, InsortLeft(s, q, QuoteLess), rest[1..]))
    {
      AdjustedFillStep(terms, previous, s, rest);
      r := ForwardBounds(terms, previous, s, rest[0]);
    }

    /** One turn of the adjusted fill's loop on the quote at position `i`, the first of
        `todo`, with `done` the quotes already repriced: the quote is repriced in place into
        its bounds (`adjust_quote`) and inserted into the set. The fill from here is then the
        fill from the new state, with the repriced quotes in front. */
    method AdjustedFillTurn(previous: seq<FilteredSlice>, i: nat, ghost done: seq<Quote>, ghost todo: seq<Quote>)
      returns (r: Result<()>, ghost doneAfter: seq<Quote>)
      requires Shaped(terms, consistentSet) && AllReady(previous) && |todo| > 0
      requires i == |done| && sortedQuoteList == done + todo
      modifies this
      ensures r.Err? ==> AdjustedFill(terms, previous, old(consistentSet), todo) == Err(r.error)
      ensures r.Ok? ==>
                && Shaped(terms, consistentSet)
                && |doneAfter| == i + 1 && sortedQuoteList == doneAfter + todo[1..]
                && Prepended(done, AdjustedFill(terms, previous, old(consistentSet), todo))
                   == Prepended(doneAfter, AdjustedFill(terms, previous, consistentSet, todo[1..]))
      ensures isFiltered == old(isFiltered)
    {
      doneAfter := done;
      assert sortedQuoteList[i..] == todo;
      var bounds :- AdjustmentBounds(previous, consistentSet, sortedQuoteList[i..]);
      var q := AdjustQuote(terms, sortedQuoteList[i], bounds.0, bounds.1);
      PrependedTwice(done, [q], AdjustedFill(terms, previous, InsortLeft(consistentSet, q, QuoteLess), todo[1..]));
      ReplaceAndInsert(i, q, done, todo);
      doneAfter := done + [q];
      r := Ok(());
    }

    /** The quote at position `i` of the pending list, the first of `todo`, is replaced by its
        repricing `q` (the source reprices the quote object in place) and `q` is inserted into
        the set (`insort_left`). */
    method ReplaceAndInsert(i: nat, q: Quote, ghost done: seq<Quote>, ghost todo: seq<Quote>)
      requires i == |done| && sortedQuoteList == done + todo && |todo| > 0
      modifies this
      ensures sortedQuoteList == (done + [q]) + todo[1..]
      ensures consistentSet == InsortLeft(old(consistentSet), q, QuoteLess)
      ensures isFiltered == old(isFiltered)
    {
      assert (done + todo)[i := q] == (done + [q]) + todo[1..];
      sortedQuoteList := sortedQuoteList[i := q];
      consistentSet := InsortLeft(consistentSet, q, QuoteLess);
    }

    /** `fill_arbitrage_consistent_set_with_adjusted_quotes`, and its forward twin: each quote
        still pending is repriced in place into its bounds and inserted into the set. A lookup
        or forward bound that raises ends the pass with the slice part-way. */
    method FillArbitrageConsistentSetWithAdjustedQuotes(previous: seq<FilteredSlice>) returns (r: Result<()>)
      requires Shaped(terms, consistentSet) && AllReady(previous)
      modifies this
      ensures var spec := AdjustedFill(terms, previous, old(consistentSet), old(sortedQuoteList));
              && (r.Ok? <==> spec.Ok?)
              && (r.Ok? ==> State() == spec.value)
              && (r.Err? ==> r.error == spec.error)
      ensures r.Ok? ==> Shaped(terms, consistentSet)
      ensures isFiltered == old(isFiltered)
    {
      ghost var spec := AdjustedFill(terms, previous, consistentSet, sortedQuoteList);
      ghost var done: seq<Quote> := [];
      PrependedNothing(spec);
      var i, todo := 0, sortedQuoteList;
      while |todo| > 0
        invariant i == |done| && sortedQuoteList == done + todo
        invariant Shaped(terms, consistentSet)
        invariant spec == Prepended(done, AdjustedFill(terms, previous, consistentSet, todo))
        invariant isFiltered == old(isFiltered)
        decreases |todo|
      {
        var u;
        u, done :- AdjustedFillTurn(previous, i, done, todo);
        todo := todo[1..];
        i := i + 1;
      }
      r := Ok(());
    }

    /** `set_filtered_sorted_quote_list`: the filtered list is the set without the strike-0
        quote. */
    method SetFilteredSortedQuoteList()
      requires Shaped(terms, consistentSet)
      modifies this
      ensures consistentSet == old(consistentSet) && isFiltered == old(isFiltered)
      ensures sortedQuoteList == consistentSet[1..]
    {
      assert consistentSet[0].strike == Quote0(terms).strike;
      sortedQuoteList := RemoveQuote(consistentSet, Quote0(terms));
    }

    /** The body of `filter_in_strike_dimension` (with earlier filtered slices, of
        `attempt_forward_surface_filter_of_quote_slice` up to its final check): initial set,
        initial fill, adjusted fill, filtered list. An exception leaves the slice part-way. */
    method FilterPass(previous: seq<FilteredSlice>) returns (r: Result<()>)
      requires terms.forward != 0.0 && FirstStrikeNonNegative(sortedQuoteList) && AllReady(previous)
      modifies this
      ensures var spec := FillSlice(terms, previous, old(sortedQuoteList));
              && (r.Ok? <==> spec.Ok?)
              && (r.Ok? ==> State() == spec.value)
              && (r.Err? ==> r.error == spec.error)
      ensures |old(sortedQuoteList)| == 0 ==> State() == old(State())
      ensures isFiltered == old(isFiltered)
    {
      ghost var pending := sortedQuoteList;
      var u :- ComputeInitialArbitrageConsistentSet();
      var v :- InitialFillArbitrageConsistentSet(previous);
      ghost var f := State();
      var w :- FillArbitrageConsistentSetWithAdjustedQuotes(previous);
      ghost var g := State();
      SetFilteredSortedQuoteList();
      FillSliceSteps(terms, previous, pending, f, g);
      r := Ok(());
    }

    /** `filter_in_strike_dimension`: one pass with the strike bounds alone, after which the
        slice is marked filtered. An empty slice raises IndexError and is left alone; a lookup
        that raises leaves the slice part-way and not marked. */
    method FilterInStrikeDimension() returns (r: Result<()>)
      requires terms.forward != 0.0 && FirstStrikeNonNegative(sortedQuoteList)
      modifies this
      ensures var spec := StrikeFilter(terms, old(sortedQuoteList));
              && (r.Ok? <==> spec.Ok?)
              && (r.Ok? ==> State() == spec.value && isFiltered)
              && (r.Err? ==> r.error == spec.error && isFiltered == old(isFiltered))
      ensures |old(sortedQuoteList)| == 0 ==> State() == old(State())
    {
      ghost var pending := sortedQuoteList;
      r := FilterPass([]);
      assert StrikeFilter(terms, pending) == FillSlice(terms, [], pending);
      if r.Ok? {
        isFiltered := true;
      }
    }

    /** `compute_percentage_of_quotes_adjusted`: count the adjusted quotes, then divide by the
        length (ZeroDivisionError on an empty list). */
    method ComputePercentageOfQuotesAdjusted() returns (r: Result<real>)
      ensures r == PercentageOfQuotesAdjusted(sortedQuoteList)
    {
      var n := 0;
      var i := 0;
      while i < |sortedQuoteList|
        invariant 0 <= i <= |sortedQuoteList|
        invariant n == CountAdjusted(sortedQuoteList[..i])
      {
        assert sortedQuoteList[..i + 1][..i] == sortedQuoteList[..i];
        if sortedQuoteList[i].isAdjusted {
          n := n + 1;
        }
        i := i + 1;
      }
      assert sortedQuoteList[..i] == sortedQuoteList;
      if |sortedQuoteList| == 0 {
        return Err(DivisionByZero);
      }
      r := Ok((n as real) / (|sortedQuoteList| as real) * 100.0);
    }

    /** `correct_arbitrage_consistent_set_postfilter`: the set rebuilt from the list sorted by
        strike, behind the strike-0 quote. */
    method CorrectArbitrageConsistentSetPostfilter()
      requires terms.forward != 0.0
      modifies this
      ensures State() == PostfilterSet(terms, old(sortedQuoteList))
      ensures isFiltered == old(isFiltered)
    {
      consistentSet := [Quote0(terms)] + InsertionSort(sortedQuoteList, QuoteLess);
    }

    /** One attempt of the strike safeguard: the filter on the attempt's pending list, and the
        share of quotes it adjusted, or the error the filter raised. */
    method StrikeAttemptTurn(ghost master: seq<Quote>, shuffle: Shuffle, a: nat, ghost pcts: seq<Result<real>>,
                             ghost lists: seq<seq<Quote>>) returns (pct: Result<real>)
      requires terms.forward != 0.0 && |master| > 0 && FirstStrikeNonNegative(master) && IsShuffle(shuffle)
      requires a < |pcts| == |lists| == MaximumNumberOfAttempts && AttemptsOf(terms, master, shuffle, pcts, lists)
      requires sortedQuoteList == StrikeAttemptInput(master, shuffle, a)
      modifies this
      ensures pct == pcts[a]
      ensures pct.Ok? ==> sortedQuoteList == lists[a] && isFiltered
    {
      ghost var attempt := StrikeAttempt(terms, master, shuffle, a);
      var u := FilterInStrikeDimension();
      if u.Err? {
        return Err(u.error);
      }
      pct := ComputePercentageOfQuotesAdjusted();
    }

    /** `filter_in_strike_dimension_with_safeguard`: keep a master copy; run the filter up to
        MAXIMUM_NUMBER_OF_ATTEMPTS times, after each unacceptable attempt on a fresh copy with
        all but the first-ranked quote shuffled; keep the list of the attempt adjusting the
        smallest share of quotes, and repair the set from it. An attempt that raises ends the
        safeguard with its exception. */
    method FilterInStrikeDimensionWithSafeguard(shuffle: Shuffle) returns (r: Result<()>)
      requires terms.forward != 0.0 && FirstStrikeNonNegative(sortedQuoteList) && IsShuffle(shuffle)
      modifies this
      ensures var spec := StrikeSafeguard(terms, old(sortedQuoteList), shuffle);
              && (r.Ok? <==> spec.Ok?)
              && (r.Ok? ==> State() == spec.value && isFiltered)
              && (r.Err? ==> r.error == spec.error)
      ensures |old(sortedQuoteList)| == 0 ==> State() == old(State()) && isFiltered == old(isFiltered)
    {
      var master := sortedQuoteList;
      if |master| == 0 {
        // the first attempt's pop raises IndexError
        return Err(IndexOutOfRange);
      }
      var best := AttemptsWithSafeguard(master, shuffle);
      if best.Err? {
        return Err(best.error);
      }
      sortedQuoteList := best.value;
      CorrectArbitrageConsistentSetPostfilter();
      r := Ok(());
    }

    /** The attempts of `filter_in_strike_dimension_with_safeguard` on the master copy: the
        list of the attempt the safeguard keeps, from which the set repaired is the strike
        safeguard's result, or the exception that ends the attempts. */
    method AttemptsWithSafeguard(master: seq<Quote>, shuffle: Shuffle) returns (best: Result<seq<Quote>>)
      requires terms.forward != 0.0 && |master| > 0 && FirstStrikeNonNegative(master) && IsShuffle(shuffle)
      requires sortedQuoteList == master
      modifies this
      ensures best.Err? ==> StrikeSafeguard(terms, master, shuffle) == Err(best.error)
      ensures best.Ok? ==> StrikeSafeguard(terms, master, shuffle) == Ok(PostfilterSet(terms, best.value)) && isFiltered
    {
      ghost var pcts, lists := StrikeSafeguardAttempts(terms, master, shuffle);
      best := StrikeAttempts(master, shuffle, pcts, lists);
      SafeguardOfAttempts(terms, master, shuffle, pcts, lists, best);
    }

    /** The attempts of the strike safeguard, `lists[k]` and `pcts[k]` being the list attempt
        `k` leaves and the share of quotes it adjusts (or the error it raises): the list of the
        attempt `Choose` keeps, or the error that ends the attempts. The best share starts at
        +inf, which the first attempt always beats. */
    method StrikeAttempts(master: seq<Quote>, shuffle: Shuffle, ghost pcts: seq<Result<real>>, ghost lists: seq<seq<Quote>>)
      returns (r: Result<seq<Quote>>)
      requires terms.forward != 0.0 && |master| > 0 && FirstStrikeNonNegative(master) && IsShuffle(shuffle)
      requires sortedQuoteList == master
      requires |pcts| == |lists| == MaximumNumberOfAttempts
      requires AttemptsOf(terms, master, shuffle, pcts, lists)
      modifies this
      ensures Choose(pcts).Ok? ==> r == Ok(lists[Choose(pcts).value.best]) && isFiltered
      ensures Choose(pcts).Err? ==> r == Err(Choose(pcts).error)
    {
      var best: seq<Quote> := [];
      var percentage := 0.0;
      var acceptable := false;
      ghost var bestAttempt: nat := 0;
      var a := 0;
      while a < MaximumNumberOfAttempts
        invariant 0 <= a <= MaximumNumberOfAttempts
        invariant a < MaximumNumberOfAttempts ==> sortedQuoteList == StrikeAttemptInput(master, shuffle, a)
        invariant a > 0 ==> bestAttempt < a && pcts[bestAttempt].Ok? && percentage == pcts[bestAttempt].value && isFiltered
        invariant a > 0 ==> best == lists[bestAttempt]
        invariant a > 0 ==> !acceptable && percentage > MaximumPercentageOfQuotesAdjusted
        invariant a < MaximumNumberOfAttempts ==> ChooseFrom(pcts, a, bestAttempt) == Choose(pcts)
        invariant a == MaximumNumberOfAttempts ==> Choose(pcts) == Ok(Choice(bestAttempt, a))
      {
        var p := StrikeAttemptTurn(master, shuffle, a, pcts, lists);
        if p.Err? {
          return Err(p.error);
        }
        var newPercentage := p.value;
        if a == 0 || newPercentage < percentage {
          percentage := newPercentage;
          best := sortedQuoteList;
          bestAttempt := a;
          acceptable := percentage <= MaximumPercentageOfQuotesAdjusted;
        }
        if acceptable {
          assert Choose(pcts) == Ok(Choice(bestAttempt, a + 1));
          break;
        } else if a + 1 < MaximumNumberOfAttempts {
          sortedQuoteList := [master[0]] + shuffle(a + 1, master[1..]);
        }
        a := a + 1;
      }
      r := Ok(best);
    }

    /** What the attempts give is what the strike safeguard promises. */
    static lemma SafeguardOfAttempts(t: SliceTerms, master: seq<Quote>, shuffle: Shuffle, pcts: seq<Result<real>>,
                                     lists: seq<seq<Quote>>, best: Result<seq<Quote>>)
      requires t.forward != 0.0 && |master| > 0 && FirstStrikeNonNegative(master) && IsShuffle(shuffle)
      requires |pcts| == |lists| == MaximumNumberOfAttempts
      requires Choose(pcts).Ok? ==> StrikeSafeguard(t, master, shuffle) == Ok(PostfilterSet(t, lists[Choose(pcts).value.best]))
      requires Choose(pcts).Err? ==> StrikeSafeguard(t, master, shuffle) == Err(Choose(pcts).error)
      requires Choose(pcts).Ok? ==> best == Ok(lists[Choose(pcts).value.best])
      requires Choose(pcts).Err? ==> best == Err(Choose(pcts).error)
      ensures best.Err? ==> StrikeSafeguard(t, master, shuffle) == Err(best.error)
      ensures best.Ok? ==> StrikeSafeguard(t, master, shuffle) == Ok(PostfilterSet(t, best.value))
    {
    }

    /** `set_quotes_to_maximum_theoretical_value`: every quote repriced in place to DF·F. */
    method SetQuotesToMaximumTheoreticalValue()
      requires terms.forward != 0.0
      modifies this
      ensures sortedQuoteList == AllAtMaximum(terms, old(sortedQuoteList))
      ensures consistentSet == old(consistentSet) && isFiltered == old(isFiltered)
    {
      var maximumCallPrice := TheoreticalMaximumPrice(terms);
      ghost var list := sortedQuoteList;
      var i := 0;
      while i < |sortedQuoteList|
        invariant 0 <= i <= |sortedQuoteList| == |list|
        invariant forall j :: 0 <= j < i ==>
                    sortedQuoteList[j] == Adjust(list[j], maximumCallPrice, terms.forward, terms.discountFactor, terms.volSolver)
        invariant forall j :: i <= j < |list| ==> sortedQuoteList[j] == list[j]
        invariant consistentSet == old(consistentSet) && isFiltered == old(isFiltered)
      {
        sortedQuoteList := sortedQuoteList[i := Adjust(sortedQuoteList[i], maximumCallPrice, terms.forward,
                                                       terms.discountFactor, terms.volSolver)];
        i := i + 1;
      }
      assert forall j :: 0 <= j < |list| ==> AllAtMaximum(terms, list)[j] == sortedQuoteList[j];
    }

    /** `final_safeguard_attempt_surface`: every premium at DF·F, then the set repaired. */
    method FinalSafeguardAttemptSurface()
      requires terms.forward != 0.0
      modifies this
      ensures State() == FinalSafeguard(terms, old(sortedQuoteList))
      ensures isFiltered == old(isFiltered)
    {
      SetQuotesToMaximumTheoreticalValue();
      CorrectArbitrageConsistentSetPostfilter();
    }
  }

  /** The bookkeeping of one pass as the method takes it, step by step. */
  lemma FillSliceSteps(t: SliceTerms, previous: seq<FilteredSlice>, pending: seq<Quote>, f: SliceState, g: SliceState)
    requires t.forward != 0.0 && FirstStrikeNonNegative(pending) && AllReady(previous) && |pending| > 0
    requires InitialFill(t, previous, InitialSet(t, pending).consistentSet, InitialSet(t, pending).sortedQuoteList,
                         InitialSet(t, pending).sortedQuoteList) == Ok(f)
    requires Shaped(t, f.consistentSet)
    requires AdjustedFill(t, previous, f.consistentSet, f.sortedQuoteList) == Ok(g)
    ensures |g.consistentSet| > 0
    ensures FillSlice(t, previous, pending) == Ok(SliceState(g.consistentSet, g.consistentSet[1..]))
  {
    var c := g.consistentSet;
    assert Shaped(t, c);
    assert RemoveQuote(c, Quote0(t)) == c[1..] by {
      assert HasStrike(c, 0.0) && c[0].strike == 0.0;
    }
  }
}
