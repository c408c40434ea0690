/** The safeguards of the original strike filter (python/filter_implementation/quote_slice.py):
    the share of adjusted quotes, the best-of-attempts loop that re-runs the filter on shuffled
    pending lists, the repair of the set after a filter, and the last resort of setting every
    premium to the theoretical maximum. */
module FilterSafeguard {
  import opened Common
  import opened Sorting
  import opened Arithmetic
  import opened FilterQuote
  import opened FilterSliceBounds
  import opened FilterFills

  /** `MAXIMUM_NUMBER_OF_ATTEMPTS` of filter_constants.py. */
  const MaximumNumberOfAttempts: nat := 5

  /** `MAXIMUM_PERCENTAGE_OF_QUOTES_ADJUSTED` of filter_constants.py. */
  const MaximumPercentageOfQuotesAdjusted: real := 10.0

  /** The number of adjusted quotes, counted in list order. */
  function CountAdjusted(s: seq<Quote>): (n: nat)
    ensures n <= |s|
    ensures n == 0 <==> forall i :: 0 <= i < |s| ==> !s[i].isAdjusted
    ensures n == |s| <==> forall i :: 0 <= i < |s| ==> s[i].isAdjusted
    decreases |s|
  {
    if |s| == 0 then 0
    else
      var init := s[..|s| - 1];
      assert forall i :: 0 <= i < |s| - 1 ==> init[i] == s[i];
      CountAdjusted(init) + if s[|s| - 1].isAdjusted then 1 else 0
  }

  /** n/len·100 lies in [0, 100], and is 0 resp. 100 exactly when n is 0 resp. len. */
  lemma PercentageWithin(n: nat, len: nat)
    requires n <= len && len > 0
    ensures var p := (n as real) / (len as real) * 100.0;
            && 0.0 <= p <= 100.0
            && (p == 0.0 <==> n == 0)
            && (p == 100.0 <==> n == len)
  {
    var x := (n as real) / (len as real);
    DivMul(n as real, len as real);
    DivAtMost(n as real, len as real, 1.0);
    DivAtLeast(n as real, len as real, 0.0);
    assert x * (len as real) == n as real;
  }

  /** `compute_percentage_of_quotes_adjusted`: 100·#adjusted/#quotes; an empty list divides by
      zero. */
  function PercentageOfQuotesAdjusted(s: seq<Quote>): (r: Result<real>)
    ensures r.Err? <==> |s| == 0
    ensures r.Err? ==> r.error == DivisionByZero
    ensures r.Ok? ==> 0.0 <= r.value <= 100.0
    ensures r.Ok? ==> (r.value == 0.0 <==> forall i :: 0 <= i < |s| ==> !s[i].isAdjusted)
    ensures r.Ok? ==> (r.value == 100.0 <==> forall i :: 0 <= i < |s| ==> s[i].isAdjusted)
  {
    if |s| == 0 then Err(DivisionByZero)
    else
      PercentageWithin(CountAdjusted(s), |s|);
      Ok((CountAdjusted(s) as real) / (|s| as real) * 100.0)
  }

  /** The outcome of a best-of-attempts loop: the attempt kept, and how many were made. */
  datatype Choice = Choice(best: nat, attempts: nat)

  /** The loop of the safeguards from attempt `a` on, `best` being the best attempt so far:
      `pcts[a]` is the percentage attempt `a` would reach, or the error it would raise, which
      ends the loop. An attempt replaces the best when its percentage is strictly lower (the
      first attempt replaces the initial +inf), and the loop stops once the best is within the
      cap, or after the last attempt. */
  function ChooseFrom(pcts: seq<Result<real>>, a: nat, best: nat): (c: Result<Choice>)
    requires a < |pcts| && (a > 0 ==> best < a && pcts[best].Ok?)
    decreases |pcts| - a
  {
    if pcts[a].Err? then Err(pcts[a].error)
    else
      var best' := if a == 0 || pcts[a].value < pcts[best].value then a else best;
      if pcts[best'].value <= MaximumPercentageOfQuotesAdjusted || a + 1 == |pcts| then Ok(Choice(best', a + 1))
      else ChooseFrom(pcts, a + 1, best')
  }

  /** What the loop guarantees from attempt `a` on, given what holds of the attempts before. */
  lemma {:induction false} ChooseFromChoosesBest(pcts: seq<Result<real>>, a: nat, best: nat)
    requires a < |pcts| && (a > 0 ==> best < a && pcts[best].Ok?)
    requires forall j :: 0 <= j < a ==> pcts[j].Ok?
    requires a > 0 ==> pcts[best].value > MaximumPercentageOfQuotesAdjusted
    requires a > 0 ==> forall j :: 0 <= j < a ==> pcts[best].value <= pcts[j].value
    requires a > 0 ==> forall j :: 0 <= j < best ==> pcts[best].value < pcts[j].value
    requires forall j :: 0 <= j < a ==> pcts[j].value > MaximumPercentageOfQuotesAdjusted
    ensures var c := ChooseFrom(pcts, a, best);
            c.Ok? ==>
              && c.value.best < c.value.attempts <= |pcts|
              && (forall j :: 0 <= j < c.value.attempts ==> pcts[j].Ok?)
              && (forall j :: 0 <= j < c.value.attempts ==> pcts[c.value.best].value <= pcts[j].value)
              && (forall j :: 0 <= j < c.value.best ==> pcts[c.value.best].value < pcts[j].value)
              && (pcts[c.value.best].value <= MaximumPercentageOfQuotesAdjusted ==> c.value.attempts == c.value.best + 1)
              && (pcts[c.value.best].value > MaximumPercentageOfQuotesAdjusted ==> c.value.attempts == |pcts|)
              && (forall j :: 0 <= j < c.value.attempts - 1 ==> pcts[j].value > MaximumPercentageOfQuotesAdjusted)
    ensures var c := ChooseFrom(pcts, a, best);
            c.Err? ==>
              exists e :: a <= e < |pcts| && pcts[e] == Err(c.error)
                          && forall j :: 0 <= j < e ==> pcts[j].Ok? && pcts[j].value > MaximumPercentageOfQuotesAdjusted
    decreases |pcts| - a
  {
    if pcts[a].Ok? {
      var best' := if a == 0 || pcts[a].value < pcts[best].value then a else best;
      if !(pcts[best'].value <= MaximumPercentageOfQuotesAdjusted || a + 1 == |pcts|) {
        ChooseFromChoosesBest(pcts, a + 1, best');
      }
    }
  }

  /** The best-of-attempts loop of `filter_in_strike_dimension_with_safeguard` (and of the
      surface's twin): it makes at least one and at most |pcts| attempts, keeps the earliest
      attempt of lowest percentage among those made, stops early only once that percentage is
      within the cap, and every attempt before the last exceeded the cap. An attempt that
      raises ends the loop with its error, after attempts that all exceeded the cap. */
  function Choose(pcts: seq<Result<real>>): (c: Result<Choice>)
    requires |pcts| > 0
    ensures c.Ok? ==> c.value.best < c.value.attempts <= |pcts|
    ensures c.Ok? ==> forall j :: 0 <= j < c.value.attempts ==> pcts[j].Ok?
    ensures c.Ok? ==> forall j :: 0 <= j < c.value.attempts ==> pcts[c.value.best].value <= pcts[j].value
    ensures c.Ok? ==> forall j :: 0 <= j < c.value.best ==> pcts[c.value.best].value < pcts[j].value
    ensures c.Ok? && c.value.attempts < |pcts| ==> pcts[c.value.best].value <= MaximumPercentageOfQuotesAdjusted
    ensures c.Ok? && pcts[c.value.best].value <= MaximumPercentageOfQuotesAdjusted ==> c.value.attempts == c.value.best + 1
    ensures c.Ok? ==> forall j :: 0 <= j < c.value.attempts - 1 ==> pcts[j].value > MaximumPercentageOfQuotesAdjusted
    ensures c.Err? ==>
              exists e :: 0 <= e < |pcts| && pcts[e] == Err(c.error)
                          && forall j :: 0 <= j < e ==> pcts[j].Ok? && pcts[j].value > MaximumPercentageOfQuotesAdjusted
    ensures (forall j :: 0 <= j < |pcts| ==> pcts[j].Ok?) ==> c.Ok?
  {
    ChooseFromChoosesBest(pcts, 0, 0);
    ChooseFrom(pcts, 0, 0)
  }

  /** `numpy.random.shuffle` after `numpy.random.seed(PROPER_RANDOM_SEED)`: `shuffle(k, s)` is
      the order the k-th shuffle gives `s`. Only its being a permutation is modelled. */
  type Shuffle = (nat, seq<Quote>) -> seq<Quote>

  ghost predicate IsShuffle(shuffle: Shuffle) {
    forall k, s :: multiset(shuffle(k, s)) == multiset(s)
  }

  /** The pending list of attempt `a` (from 0) of the strike safeguard: the master copy, and
      after a failed attempt the master copy with all but its first-ranked quote shuffled. */
  function StrikeAttemptInput(master: seq<Quote>, shuffle: Shuffle, a: nat): (r: seq<Quote>)
    requires |master| > 0 && IsShuffle(shuffle)
    ensures |r| == |master| && r[0] == master[0]
    ensures multiset(r) == multiset(master)
  {
    if a == 0 then master
    else
      var rest := shuffle(a, master[1..]);
      assert master == [master[0]] + master[1..];
      assert |rest| == |multiset(rest)| == |master| - 1;
      [master[0]] + rest
  }

  /** A quote derived from a quote of `a` is derived from a permutation of `a`. */
  lemma DerivedFromPermutation(x: Quote, a: seq<Quote>, b: seq<Quote>)
    requires DerivedFrom(x, a) && multiset(a) == multiset(b)
    ensures DerivedFrom(x, b)
  {
    var j :| 0 <= j < |a| && SameContract(x, a[j]) && (x == a[j] || x.isAdjusted);
    assert a[j] in multiset(b);
    var k :| 0 <= k < |b| && b[k] == a[j];
  }

  /** A filter of a permutation of the pending list is a filter of the list. */
  lemma FilteredOfPermutation(t: SliceTerms, a: seq<Quote>, b: seq<Quote>, st: SliceState)
    requires Filtered(t, a, st) && multiset(a) == multiset(b)
    ensures Filtered(t, b, st)
  {
    StrikesOfPermutation(a, b);
    forall i | 0 <= i < |st.sortedQuoteList|
      ensures DerivedFrom(st.sortedQuoteList[i], b)
    {
      DerivedFromPermutation(st.sortedQuoteList[i], a, b);
    }
  }

  /** Candidates stay candidates under a permutation; stated for any list. */
  lemma CandidatesOfPermutation(a: seq<Quote>, b: seq<Quote>)
    requires multiset(a) == multiset(b)
    ensures Candidates(a) ==> Candidates(b)
  {
    if Candidates(a) {
      PermutationKeepsCandidates(a, b);
    }
  }

  /** Attempt `a` of the strike safeguard: `filter_in_strike_dimension` on its pending list. It
      filters the master copy, and fails only by a lookup, which on distinct positive strikes
      never fails. */
  function StrikeAttempt(t: SliceTerms, master: seq<Quote>, shuffle: Shuffle, a: nat): (r: Result<SliceState>)
    requires t.forward != 0.0 && |master| > 0 && FirstStrikeNonNegative(master) && IsShuffle(shuffle)
    ensures r.Err? ==> r.error == LookupFailed
    ensures r.Ok? ==> Filtered(t, master, r.value) && |r.value.sortedQuoteList| == |master|
    ensures Candidates(master) ==> r.Ok?
    ensures Candidates(master) && r.Ok? ==> StrictlySortedBy(r.value.consistentSet, QuoteLess)
  {
    var input := StrikeAttemptInput(master, shuffle, a);
    CandidatesOfPermutation(master, input);
    var r := StrikeFilter(t, input);
    if r.Ok? then
      FilteredOfPermutation(t, input, master, r.value);
      r
    else r
  }

  /** The percentage attempt `a` of the strike safeguard reaches, or the error it raises; an
      attempt leaves every quote in the list, so the division is defined. */
  function StrikeAttemptPercentage(t: SliceTerms, master: seq<Quote>, shuffle: Shuffle, a: nat): (p: Result<real>)
    requires t.forward != 0.0 && |master| > 0 && FirstStrikeNonNegative(master) && IsShuffle(shuffle)
    ensures p.Err? <==> StrikeAttempt(t, master, shuffle, a).Err?
    ensures p.Err? ==> p.error == LookupFailed
    ensures p.Ok? ==> p == PercentageOfQuotesAdjusted(StrikeAttempt(t, master, shuffle, a).value.sortedQuoteList)
  {
    var st :- StrikeAttempt(t, master, shuffle, a);
    PercentageOfQuotesAdjusted(st.sortedQuoteList)
  }

  /** The percentages the attempts of the strike safeguard would reach. */
  function StrikeAttemptPercentages(t: SliceTerms, master: seq<Quote>, shuffle: Shuffle, n: nat): (r: seq<Result<real>>)
    requires t.forward != 0.0 && |master| > 0 && FirstStrikeNonNegative(master) && IsShuffle(shuffle)
    ensures |r| == n
    ensures forall a :: 0 <= a < n ==> r[a] == StrikeAttemptPercentage(t, master, shuffle, a)
    ensures forall a :: 0 <= a < n ==> (r[a].Err? ==> r[a].error == LookupFailed)
  {
    seq(n, a requires 0 <= a < n => StrikeAttemptPercentage(t, master, shuffle, a))
  }

  /** The list attempt `a` of the strike safeguard leaves when it succeeds. */
  function StrikeAttemptList(t: SliceTerms, master: seq<Quote>, shuffle: Shuffle, a: nat): (r: seq<Quote>)
    requires t.forward != 0.0 && |master| > 0 && FirstStrikeNonNegative(master) && IsShuffle(shuffle)
    ensures StrikeAttempt(t, master, shuffle, a).Ok? ==>
              r == StrikeAttempt(t, master, shuffle, a).value.sortedQuoteList && |r| == |master|
  {
    var st := StrikeAttempt(t, master, shuffle, a);
    if st.Ok? then st.value.sortedQuoteList else []
  }

  /** The lists the attempts of the strike safeguard would leave, where they succeed. */
  function StrikeAttemptLists(t: SliceTerms, master: seq<Quote>, shuffle: Shuffle, n: nat): (r: seq<seq<Quote>>)
    requires t.forward != 0.0 && |master| > 0 && FirstStrikeNonNegative(master) && IsShuffle(shuffle)
    ensures |r| == n
    ensures forall a :: 0 <= a < n ==> r[a] == StrikeAttemptList(t, master, shuffle, a)
  {
    seq(n, a requires 0 <= a < n => StrikeAttemptList(t, master, shuffle, a))
  }

  /** `pcts[k]` is the share of quotes attempt `k` of the strike safeguard adjusts, or its
      error, and `lists[k]` the list it leaves when it succeeds. (The trigger keeps the
      attempts folded until one is named.) */
  ghost predicate AttemptsOf(t: SliceTerms, master: seq<Quote>, shuffle: Shuffle, pcts: seq<Result<real>>,
                             lists: seq<seq<Quote>>)
    requires t.forward != 0.0 && |master| > 0 && FirstStrikeNonNegative(master) && IsShuffle(shuffle)
  {
    && |pcts| == |lists| == MaximumNumberOfAttempts
    && forall k {:trigger StrikeAttempt(t, master, shuffle, k)} :: 0 <= k < MaximumNumberOfAttempts ==>
         && pcts[k] == StrikeAttemptPercentage(t, master, shuffle, k)
         && (StrikeAttempt(t, master, shuffle, k).Ok? ==>
               lists[k] == StrikeAttempt(t, master, shuffle, k).value.sortedQuoteList)
  }

  /** The attempts of the strike safeguard, listed; the safeguard keeps the one `Choose` picks
      from their percentages, or fails as the first failing attempt it makes. */
  lemma StrikeSafeguardAttempts(t: SliceTerms, master: seq<Quote>, shuffle: Shuffle)
    returns (pcts: seq<Result<real>>, lists: seq<seq<Quote>>)
    requires t.forward != 0.0 && |master| > 0 && FirstStrikeNonNegative(master) && IsShuffle(shuffle)
    ensures AttemptsOf(t, master, shuffle, pcts, lists)
    ensures Choose(pcts).Ok? ==> StrikeSafeguard(t, master, shuffle) == Ok(PostfilterSet(t, lists[Choose(pcts).value.best]))
    ensures Choose(pcts).Err? ==> StrikeSafeguard(t, master, shuffle) == Err(Choose(pcts).error)
  {
    pcts := StrikeAttemptPercentages(t, master, shuffle, MaximumNumberOfAttempts);
    lists := StrikeAttemptLists(t, master, shuffle, MaximumNumberOfAttempts);
    forall k | 0 <= k < MaximumNumberOfAttempts
      ensures && pcts[k] == StrikeAttemptPercentage(t, master, shuffle, k)
              && (StrikeAttempt(t, master, shuffle, k).Ok? ==>
                    lists[k] == StrikeAttempt(t, master, shuffle, k).value.sortedQuoteList)
    {
      assert lists[k] == StrikeAttemptList(t, master, shuffle, k);
    }
    var best := BestStrikeAttempt(t, master, shuffle);
    if best.Ok? {
      assert lists[best.value] == StrikeAttemptList(t, master, shuffle, best.value);
    }
  }

  /** `correct_arbitrage_consistent_set_postfilter`: the set is rebuilt as the strike-0 quote
      followed by the list sorted by strike (Python's stable sort). */
  function PostfilterSet(t: SliceTerms, list: seq<Quote>): (st: SliceState)
    requires t.forward != 0.0
    ensures st.sortedQuoteList == list
    ensures |st.consistentSet| == |list| + 1 && st.consistentSet[0] == Quote0(t)
    ensures multiset(st.consistentSet[1..]) == multiset(list)
    ensures SortedBy(st.consistentSet[1..], QuoteLess)
  {
    var sorted := InsertionSort(list, QuoteLess);
    QuoteLessIsStrictWeakOrder();
    InsertionSortSorted(list, QuoteLess);
    assert ([Quote0(t)] + sorted)[1..] == sorted;
    SliceState([Quote0(t)] + sorted, list)
  }

  /** The repair is the identity on a list already sorted by strike (the stable sort keeps
      equal strikes in their order), so after a filter it leaves the set as the filter built
      it. */
  lemma PostfilterOfSorted(t: SliceTerms, list: seq<Quote>)
    requires t.forward != 0.0 && SortedBy(list, QuoteLess)
    ensures PostfilterSet(t, list) == SliceState([Quote0(t)] + list, list)
  {
    InsertionSortOfSorted(list, QuoteLess);
  }

  /** After a filter the repair changes nothing. */
  lemma PostfilterOfFiltered(t: SliceTerms, pending: seq<Quote>, st: SliceState)
    requires Filtered(t, pending, st)
    ensures PostfilterSet(t, st.sortedQuoteList) == st
  {
    var list := st.sortedQuoteList;
    assert st.consistentSet == [Quote0(t)] + list;
    assert SortedBy(list, QuoteLess) by {
      forall i, j | 0 <= i < j < |list|
        ensures !QuoteLess(list[j], list[i])
      {
        assert list[i] == st.consistentSet[i + 1] && list[j] == st.consistentSet[j + 1];
      }
    }
    PostfilterOfSorted(t, list);
  }

  /** Repairing a list of quotes at non-negative strikes gives a shaped set, strictly sorted
      when the strikes are distinct positive ones. */
  lemma PostfilterShaped(t: SliceTerms, list: seq<Quote>)
    requires t.forward != 0.0 && |list| > 0 && NonNegativeStrikes(list)
    ensures Shaped(t, PostfilterSet(t, list).consistentSet)
    ensures Candidates(list) ==> StrictlySortedBy(PostfilterSet(t, list).consistentSet, QuoteLess)
  {
    var c := PostfilterSet(t, list).consistentSet;
    var sorted := c[1..];
    PermutationKeepsNonNegativeStrikes(list, sorted);
    forall i, j | 0 <= i < j < |c|
      ensures !QuoteLess(c[j], c[i])
    {
      if i > 0 {
        assert c[i] == sorted[i - 1] && c[j] == sorted[j - 1];
      } else {
        assert c[j] == sorted[j - 1];
      }
    }
    if Candidates(list) {
      PermutationKeepsCandidates(list, sorted);
      forall i, j | 0 <= i < j < |c|
        ensures QuoteLess(c[i], c[j])
      {
        if i > 0 {
          assert c[i] == sorted[i - 1] && c[j] == sorted[j - 1];
          assert !QuoteLess(sorted[j - 1], sorted[i - 1]);
        } else {
          assert c[j] == sorted[j - 1];
        }
      }
    }
  }

  /** `filter_in_strike_dimension_with_safeguard`: up to MAXIMUM_NUMBER_OF_ATTEMPTS filter
      passes, each after the first on a fresh copy with all but the first-ranked quote
      shuffled; the pass adjusting the smallest share of quotes is kept, and its set repaired.
      An empty slice fails the first pass with IndexError; a pass whose lookup raises ends the
      safeguard with that error. */
  function StrikeSafeguard(t: SliceTerms, master: seq<Quote>, shuffle: Shuffle): (r: Result<SliceState>)
    requires t.forward != 0.0 && FirstStrikeNonNegative(master) && IsShuffle(shuffle)
    ensures r.Err? ==> r.error == IndexOutOfRange || r.error == LookupFailed
    ensures r.Err? ==> (r.error == IndexOutOfRange <==> |master| == 0)
    ensures r.Ok? ==> Filtered(t, master, r.value)
    ensures r.Ok? ==> BestStrikeAttempt(t, master, shuffle).Ok?
                      && r == StrikeAttempt(t, master, shuffle, BestStrikeAttempt(t, master, shuffle).value)
    ensures Candidates(master) ==> (r.Err? <==> |master| == 0)
    ensures Candidates(master) && r.Ok? ==> StrictlySortedBy(r.value.consistentSet, QuoteLess)
  {
    if |master| == 0 then Err(IndexOutOfRange)
    else
      var best :- BestStrikeAttempt(t, master, shuffle);
      var st := StrikeAttempt(t, master, shuffle, best).value;
      PostfilterOfFiltered(t, master, st);
      Ok(PostfilterSet(t, st.sortedQuoteList))
  }

  /** The attempt the strike safeguard keeps, or the error of the first failing attempt it
      makes; the attempt kept succeeded. */
  function BestStrikeAttempt(t: SliceTerms, master: seq<Quote>, shuffle: Shuffle): (r: Result<nat>)
    requires t.forward != 0.0 && |master| > 0 && FirstStrikeNonNegative(master) && IsShuffle(shuffle)
    ensures r.Ok? ==> r.value < MaximumNumberOfAttempts && StrikeAttempt(t, master, shuffle, r.value).Ok?
    ensures r.Err? ==> r.error == LookupFailed
    ensures Candidates(master) ==> r.Ok?
  {
    var pcts := StrikeAttemptPercentages(t, master, shuffle, MaximumNumberOfAttempts);
    ChooseFailsByLookup(pcts);
    var c := Choose(pcts);
    if c.Err? then Err(c.error) else Ok(c.value.best)
  }

  /** Attempts that can only fail by a lookup make the choice fail only by a lookup. */
  lemma ChooseFailsByLookup(pcts: seq<Result<real>>)
    requires |pcts| > 0 && forall a :: 0 <= a < |pcts| ==> (pcts[a].Err? ==> pcts[a].error == LookupFailed)
    ensures Choose(pcts).Err? ==> Choose(pcts).error == LookupFailed
  {
    var c := Choose(pcts);
    if c.Err? {
      var e :| 0 <= e < |pcts| && pcts[e] == Err(c.error);
    }
  }

  /** `set_quotes_to_maximum_theoretical_value`: every quote repriced to DF·F. */
  function AllAtMaximum(t: SliceTerms, list: seq<Quote>): (r: seq<Quote>)
    requires t.forward != 0.0
    ensures |r| == |list|
    ensures forall i :: 0 <= i < |list| ==>
              && SameContract(r[i], list[i])
              && r[i].callPremium == TheoreticalMaximumPrice(t)
              && r[i].isAdjusted
  {
    seq(|list|, i requires 0 <= i < |list| =>
      Adjust(list[i], TheoreticalMaximumPrice(t), t.forward, t.discountFactor, t.volSolver))
  }

  /** `final_safeguard_attempt_surface`: every quote at DF·F, then the set repaired. */
  function FinalSafeguard(t: SliceTerms, list: seq<Quote>): (st: SliceState)
    requires t.forward != 0.0
    ensures st.sortedQuoteList == AllAtMaximum(t, list)
    ensures |st.consistentSet| == |list| + 1 && st.consistentSet[0] == Quote0(t)
    ensures forall i :: 1 <= i < |st.consistentSet| ==>
              st.consistentSet[i].callPremium == TheoreticalMaximumPrice(t) && st.consistentSet[i].isAdjusted
  {
    var all := AllAtMaximum(t, list);
    var st := PostfilterSet(t, all);
    forall i | 1 <= i < |st.consistentSet|
      ensures st.consistentSet[i] in all
    {
      assert st.consistentSet[i] == st.consistentSet[1..][i - 1];
      assert st.consistentSet[i] in multiset(all);
    }
    st
  }

  /** The account every slice filter gives of its pending list: a shaped set that holds the
      strike-0 quote and the filtered list (in some order), a filtered list with every pending
      strike as often as it is pending, each of its quotes a pending quote or a repricing of one. */
  ghost predicate Accounted(t: SliceTerms, pending: seq<Quote>, st: SliceState) {
    && Shaped(t, st.consistentSet)
    && multiset(st.consistentSet[1..]) == multiset(st.sortedQuoteList)
    && multiset(Strikes(st.sortedQuoteList)) == multiset(Strikes(pending))
    && (forall i :: 0 <= i < |st.sortedQuoteList| ==> DerivedFrom(st.sortedQuoteList[i], pending))
  }

  lemma FilteredIsAccounted(t: SliceTerms, pending: seq<Quote>, st: SliceState)
    requires Filtered(t, pending, st)
    ensures Accounted(t, pending, st)
  {
    assert st.consistentSet[1..] == st.sortedQuoteList;
  }

  /** The last resort accounts for the quotes it reprices. */
  lemma FinalSafeguardAccounted(t: SliceTerms, list: seq<Quote>)
    requires t.forward != 0.0 && |list| > 0 && NonNegativeStrikes(list)
    ensures Accounted(t, list, FinalSafeguard(t, list))
  {
    var all := AllAtMaximum(t, list);
    assert NonNegativeStrikes(all);
    PostfilterShaped(t, all);
    assert Strikes(all) == Strikes(list);
    forall i | 0 <= i < |all|
      ensures DerivedFrom(all[i], list)
    {
      assert SameContract(all[i], list[i]) && all[i].isAdjusted;
    }
  }
}
