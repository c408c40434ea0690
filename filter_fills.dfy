/** The passes that fill a slice's arbitrage-consistent set in the original filter: the initial
    set (python/filter_implementation/quote_slice.py), the fill with valid quotes, the fill with
    adjusted quotes, and the filtered list read back from the set. The strike filter and the
    forward filter (python/filter_implementation/quote_surface.py) run the same passes; they
    differ only in the bounds, which the forward filter raises to the infimum implied by the
    slices already filtered. Both are stated here once, over the list of those slices: with no
    filtered slice the forward bounds are the strike bounds. A neighbour lookup that raises
    ValueError ends a pass with `LookupFailed`; on quotes at distinct positive strikes none
    does. */
module FilterFills {
  import opened Common
  import opened Sorting
  import opened FilterQuote
  import opened FilterSliceBounds
  import opened FilterForwardBounds

  /** The two lists of a slice that filtering changes: `arbitrage_consistent_strike_sorted_set`
      and `sorted_quote_list`. */
  datatype SliceState = SliceState(consistentSet: seq<Quote>, sortedQuoteList: seq<Quote>)

  /** The errors a fill pass can end with: a lookup's ValueError, or the forward filter's
      LowerBoundMoneynessTooHighException. */
  predicate FillError(e: Error) {
    e == LookupFailed || e == LowerBoundMoneynessTooHigh
  }

  /** No quote of `s` has strike `k`. */
  predicate StrikeFree(s: seq<Quote>, k: real) {
    forall i :: 0 <= i < |s| ==> s[i].strike != k
  }

  /** Quotes that can be inserted one by one into the set `s` without repeating a strike:
      candidates whose strikes `s` does not hold yet. */
  ghost predicate Insertable(s: seq<Quote>, todo: seq<Quote>) {
    && Candidates(todo)
    && (forall j :: 0 <= j < |todo| ==> StrikeFree(s, todo[j].strike))
  }

  /** The quotes after the first stay insertable. */
  lemma DropFirstInsertable(s: seq<Quote>, todo: seq<Quote>)
    requires |todo| > 0 && Insertable(s, todo)
    ensures Insertable(s, todo[1..])
  {
    forall j | 0 <= j < |todo| - 1
      ensures StrikeFree(s, todo[1..][j].strike)
    {
      assert todo[1..][j] == todo[j + 1];
    }
  }

  /** `x` is one of the quotes of `src`, possibly repriced: same contract, and either untouched
      or marked adjusted. */
  ghost predicate DerivedFrom(x: Quote, src: seq<Quote>) {
    exists j :: 0 <= j < |src| && SameContract(x, src[j]) && (x == src[j] || x.isAdjusted)
  }

  lemma DerivedFromMember(x: Quote, src: seq<Quote>)
    requires x in src
    ensures DerivedFrom(x, src)
  {
    var j :| 0 <= j < |src| && src[j] == x;
  }

  /** Provenance composes: a repricing of a repricing of a quote of `b` is a repricing of it. */
  lemma DerivedFromTransitive(x: Quote, a: seq<Quote>, b: seq<Quote>)
    requires DerivedFrom(x, a)
    requires forall j :: 0 <= j < |a| ==> DerivedFrom(a[j], b)
    ensures DerivedFrom(x, b)
  {
    var j :| 0 <= j < |a| && SameContract(x, a[j]) && (x == a[j] || x.isAdjusted);
    var k :| 0 <= k < |b| && SameContract(a[j], b[k]) && (a[j] == b[k] || a[j].isAdjusted);
    assert SameContract(x, b[k]) && (x == b[k] || x.isAdjusted);
  }

  /** The premium of `q` is at least the infimum the filtered slices imply at its moneyness
      (`compute_infimum_for_moneyness_filtered_slices`), whose lookups succeed there; with no
      filtered slice the infimum is -inf. */
  ghost predicate AboveFloor(previous: seq<FilteredSlice>, t: SliceTerms, q: Quote)
    requires AllReady(previous)
  {
    var f := Infimum(previous, t, q.moneyness);
    f.Ok? && (f.value.Floor? ==> q.callPremium >= f.value.value)
  }

  /** A forward lower bound is at least the infimum, and so is an upper bound that did not
      make `compute_bounds_forward_filter` raise. */
  lemma ForwardBoundsAboveFloor(t: SliceTerms, previous: seq<FilteredSlice>, s: seq<Quote>, q: Quote)
    requires Shaped(t, s) && AllReady(previous) && ForwardBounds(t, previous, s, q).Ok?
    ensures Infimum(previous, t, q.moneyness).Ok?
    ensures var b := ForwardBounds(t, previous, s, q).value;
            var f := Infimum(previous, t, q.moneyness).value;
            f.Floor? ==> f.value <= b.0 && f.value <= b.1
  {
    var f := Infimum(previous, t, q.moneyness).value;
    if f.Floor? {
      var i :| 0 <= i < |previous| && f.value == ScaledLowerBound(previous[i], t, q.moneyness).value;
    }
  }

  /** Inserting a quote at a positive strike keeps the set shaped and adds that quote and its
      strike. */
  lemma InsertStep(t: SliceTerms, s: seq<Quote>, q: Quote)
    requires Shaped(t, s) && q.strike > 0.0
    ensures Shaped(t, InsortLeft(s, q, QuoteLess))
    ensures multiset(Strikes(InsortLeft(s, q, QuoteLess))) == multiset(Strikes(s)) + multiset{q.strike}
  {
    QuoteLessIsStrictWeakOrder();
    assert StrictWeakOrderOn(s + [q], QuoteLess);
    InsortLeftSorted(s, q, QuoteLess);
    StrikesOfInsort(s, q);
    assert QuoteLess(s[0], q);
  }

  /** On distinct strikes, inserting a quote at the strike of the next quote to insert keeps
      the set strictly sorted and the remaining quotes insertable. */
  lemma InsertStepDistinct(s: seq<Quote>, todo: seq<Quote>, q: Quote)
    requires StrictlySortedBy(s, QuoteLess) && Insertable(s, todo) && |todo| > 0 && q.strike == todo[0].strike
    ensures var r := InsortLeft(s, q, QuoteLess);
            StrictlySortedBy(r, QuoteLess) && Insertable(r, todo[1..])
  {
    var r := InsortLeft(s, q, QuoteLess);
    QuoteLessIsStrictWeakOrder();
    assert StrictWeakOrderOn(s + [q], QuoteLess);
    assert StrikeFree(s, todo[0].strike);
    InsortLeftStrictlySorted(s, q, QuoteLess);
    StrikesOfInsort(s, q);
    forall j | 0 <= j < |todo| - 1
      ensures StrikeFree(r, todo[1..][j].strike)
    {
      assert StrikeFree(s, todo[j + 1].strike);
      assert todo[0].strike != todo[j + 1].strike;
    }
  }

  lemma StrikesOfFirst(todo: seq<Quote>)
    requires |todo| > 0
    ensures multiset(Strikes(todo)) == multiset{todo[0].strike} + multiset(Strikes(todo[1..]))
  {
    var r := Strikes(todo[1..]);
    assert Strikes(todo) == [todo[0].strike] + r by {
      assert forall i :: 1 <= i < |todo| ==> Strikes(todo)[i] == r[i - 1];
    }
  }

  /** What the initial fill keeps, from the set `s`, the pending list `list` and the quotes
      `todo` still to visit: the shape; the strikes (each lands in exactly one of the two
      lists); the pending list only loses quotes; the set only gains quotes, each one a visited
      quote that was valid, so above the floor. */
  ghost predicate InitialFillKeeps(t: SliceTerms, previous: seq<FilteredSlice>, s: seq<Quote>, list: seq<Quote>,
                                   todo: seq<Quote>, st: SliceState)
    requires AllReady(previous)
  {
    && Shaped(t, st.consistentSet)
    && multiset(Strikes(st.consistentSet)) + multiset(Strikes(st.sortedQuoteList))
       == multiset(Strikes(s)) + multiset(Strikes(list))
    && multiset(st.sortedQuoteList) <= multiset(list)
    && multiset(s) <= multiset(st.consistentSet)
    && (forall x :: x in multiset(st.consistentSet) - multiset(s) ==> x in todo && AboveFloor(previous, t, x))
  }

  /** What one turn of the initial fill needs: the quote visited is still pending (by strike),
      and after a valid one the set stays shaped and the rest still pending. */
  lemma InitialFillTurnFacts(t: SliceTerms, previous: seq<FilteredSlice>, s: seq<Quote>, list: seq<Quote>, todo: seq<Quote>)
    requires Shaped(t, s) && AllReady(previous) && |todo| > 0
    requires multiset(Strikes(todo)) <= multiset(Strikes(list))
    ensures HasStrike(list, todo[0].strike)
    ensures multiset(Strikes(todo[1..])) <= multiset(Strikes(list))
    ensures multiset(Strikes(todo[1..])) <= multiset(Strikes(RemoveQuote(list, todo[0])))
    ensures IsValidForward(t, previous, s, todo[0]).Ok? ==> todo[0].strike > 0.0
    ensures todo[0].strike > 0.0 ==> Shaped(t, InsortLeft(s, todo[0], QuoteLess))
  {
    var k := todo[0].strike;
    assert HasStrike(todo, k);
    HasStrikeOfSubMultiset(list, todo, k);
    StrikesOfFirst(todo);
    StrikesOfRemove(list, todo[0]);
    if k > 0.0 {
      InsertStep(t, s, todo[0]);
    }
  }

  /** A quote added on the way from `s` to `c`, when on the way from `s` with `q` inserted
      every added quote was a later one above the floor, is a visited quote above the floor. */
  lemma AddedAfterInsert(t: SliceTerms, previous: seq<FilteredSlice>, s: seq<Quote>, c: seq<Quote>, todo: seq<Quote>)
    requires AllReady(previous) && |todo| > 0 && AboveFloor(previous, t, todo[0])
    requires forall x :: x in multiset(c) - (multiset(s) + multiset{todo[0]}) ==> x in todo[1..] && AboveFloor(previous, t, x)
    ensures forall x :: x in multiset(c) - multiset(s) ==> x in todo && AboveFloor(previous, t, x)
  {
    forall x | x in multiset(c) - multiset(s)
      ensures x in todo && AboveFloor(previous, t, x)
    {
      if x != todo[0] {
        assert x in multiset(c) - (multiset(s) + multiset{todo[0]});
      }
    }
  }

  /** The first quote visited was valid: what the fill keeps from the grown set and the
      shrunk pending list, it keeps from the set and the list before. */
  lemma AdmittedAccounting(t: SliceTerms, previous: seq<FilteredSlice>, s: seq<Quote>, list: seq<Quote>,
                           todo: seq<Quote>, st: SliceState)
    requires Shaped(t, s) && AllReady(previous) && |todo| > 0 && todo[0].strike > 0.0
    requires HasStrike(list, todo[0].strike) && AboveFloor(previous, t, todo[0])
    requires InitialFillKeeps(t, previous, InsortLeft(s, todo[0], QuoteLess), RemoveQuote(list, todo[0]), todo[1..], st)
    ensures InitialFillKeeps(t, previous, s, list, todo, st)
  {
    var q := todo[0];
    InsertStep(t, s, q);
    StrikesOfRemove(list, q);
    var k := q.strike;
    var j :| 0 <= j < |list| && list[j].strike == k;
    assert Strikes(list)[j] == k;
    AddedAfterInsert(t, previous, s, st.consistentSet, todo);
  }

  /** The first quote visited was not valid: set and list carry over. */
  lemma RejectedAccounting(t: SliceTerms, previous: seq<FilteredSlice>, s: seq<Quote>, list: seq<Quote>,
                           todo: seq<Quote>, st: SliceState)
    requires Shaped(t, s) && AllReady(previous) && |todo| > 0
    requires InitialFillKeeps(t, previous, s, list, todo[1..], st)
    ensures InitialFillKeeps(t, previous, s, list, todo, st)
  {
    forall x | x in multiset(st.consistentSet) - multiset(s)
      ensures x in todo
    {
      assert x in todo[1..];
    }
  }

  /** `initial_fill_arbitrage_consistent_set` (and its forward twin): the loop visits a copy
      `todo` of the pending list in rank order; a valid quote is inserted into the set
      (`insort_left`) and removed from the pending list `list` (`list.remove`, which drops the
      first quote at that strike: with repeated strikes, possibly an earlier rejected one); an
      invalid quote stays. A lookup or forward bound that raises ends the pass. */
  function InitialFill(t: SliceTerms, previous: seq<FilteredSlice>, s: seq<Quote>, list: seq<Quote>,
                       todo: seq<Quote>): (r: Result<SliceState>)
    requires Shaped(t, s) && AllReady(previous)
    requires multiset(Strikes(todo)) <= multiset(Strikes(list))
    ensures r.Err? ==> FillError(r.error)
    ensures r.Err? && |previous| == 0 ==> r.error == LookupFailed
    ensures r.Ok? ==> InitialFillKeeps(t, previous, s, list, todo, r.value)
    decreases |todo|
  {
    if |todo| == 0 then Ok(SliceState(s, list))
    else
      var q := todo[0];
      InitialFillTurnFacts(t, previous, s, list, todo);
      var valid :- IsValidForward(t, previous, s, q);
      if valid then
        var r := InitialFill(t, previous, InsortLeft(s, q, QuoteLess), RemoveQuote(list, q), todo[1..]);
        if r.Ok? then
          ValidAboveFloor(t, previous, s, q);
          AdmittedAccounting(t, previous, s, list, todo, r.value);
          r
        else r
      else
        var r := InitialFill(t, previous, s, list, todo[1..]);
        if r.Ok? then
          RejectedAccounting(t, previous, s, list, todo, r.value);
          r
        else r
  }

  /** A quote the forward validity test admits is above the floor. */
  lemma ValidAboveFloor(t: SliceTerms, previous: seq<FilteredSlice>, s: seq<Quote>, q: Quote)
    requires Shaped(t, s) && AllReady(previous)
    requires IsValidForward(t, previous, s, q) == Ok(true)
    ensures AboveFloor(previous, t, q)
  {
    ForwardBoundsAboveFloor(t, previous, s, q);
  }

  /** One turn of the initial fill's loop: the validity of the first quote visited decides
      whether the fill goes on from the set with that quote inserted and the pending list
      without it, or from the same set and list; a lookup or bound that raises ends the fill. */
  lemma InitialFillStep(t: SliceTerms, previous: seq<FilteredSlice>, s: seq<Quote>, list: seq<Quote>, todo: seq<Quote>)
    requires Shaped(t, s) && AllReady(previous) && |todo| > 0
    requires multiset(Strikes(todo)) <= multiset(Strikes(list))
    ensures HasStrike(list, todo[0].strike)
    ensures multiset(Strikes(todo[1..])) <= multiset(Strikes(list))
    ensures IsValidForward(t, previous, s, todo[0]) == Ok(true) ==>
              && Shaped(t, InsortLeft(s, todo[0], QuoteLess))
              && multiset(Strikes(todo[1..])) <= multiset(Strikes(RemoveQuote(list, todo[0])))
    ensures var v := IsValidForward(t, previous, s, todo[0]);
            InitialFill(t, previous, s, list, todo) ==
              if v.Err? then Err(v.error)
              else if v.value then
                InitialFill(t, previous, InsortLeft(s, todo[0], QuoteLess), RemoveQuote(list, todo[0]), todo[1..])
              else InitialFill(t, previous, s, list, todo[1..])
  {
    InitialFillTurnFacts(t, previous, s, list, todo);
  }

  /** What the adjusted fill keeps: the shape; every pending strike joins the set; the pending
      list becomes its quotes repriced in place; the set only gains quotes, each one a
      repricing of a pending quote within its bounds, so above the floor. */
  ghost predicate AdjustedFillKeeps(t: SliceTerms, previous: seq<FilteredSlice>, s: seq<Quote>, todo: seq<Quote>,
                                    st: SliceState)
    requires AllReady(previous)
  {
    && Shaped(t, st.consistentSet)
    && multiset(Strikes(st.consistentSet)) == multiset(Strikes(s)) + multiset(Strikes(todo))
    && |st.sortedQuoteList| == |todo|
    && (forall j :: 0 <= j < |todo| ==>
          SameContract(st.sortedQuoteList[j], todo[j])
          && (st.sortedQuoteList[j] == todo[j] || st.sortedQuoteList[j].isAdjusted))
    && multiset(s) <= multiset(st.consistentSet)
    && (forall x :: x in multiset(st.consistentSet) - multiset(s) ==> DerivedFrom(x, todo) && AboveFloor(previous, t, x))
  }

  /** `adjust_quote_forward_filtering` leaves a premium above the floor: it stays at or above
      the lower bound, or lands on the lower or the upper bound. */
  lemma AdjustedAboveFloor(t: SliceTerms, previous: seq<FilteredSlice>, s: seq<Quote>, q: Quote)
    requires Shaped(t, s) && AllReady(previous) && ForwardBounds(t, previous, s, q).Ok?
    ensures var b := ForwardBounds(t, previous, s, q).value;
            AboveFloor(previous, t, AdjustQuote(t, q, b.0, b.1))
  {
    ForwardBoundsAboveFloor(t, previous, s, q);
  }

  /** One step of the adjusted fill: the repriced first quote `q` went in, the rest followed. */
  lemma AdjustedAccounting(t: SliceTerms, previous: seq<FilteredSlice>, s: seq<Quote>, todo: seq<Quote>, q: Quote,
                           st: SliceState)
    requires Shaped(t, s) && AllReady(previous) && |todo| > 0 && q.strike > 0.0
    requires SameContract(q, todo[0]) && (q == todo[0] || q.isAdjusted) && AboveFloor(previous, t, q)
    requires AdjustedFillKeeps(t, previous, InsortLeft(s, q, QuoteLess), todo[1..], st)
    ensures AdjustedFillKeeps(t, previous, s, todo, SliceState(st.consistentSet, [q] + st.sortedQuoteList))
  {
    InsertStep(t, s, q);
    StrikesOfFirst(todo);
    var s' := InsortLeft(s, q, QuoteLess);
    var c := st.consistentSet;
    forall x | x in multiset(c) - multiset(s)
      ensures DerivedFrom(x, todo) && AboveFloor(previous, t, x)
    {
      if x == q {
        assert SameContract(x, todo[0]);
      } else {
        assert multiset(s')[x] == multiset(s)[x];
        assert x in multiset(c) - multiset(s');
        var j :| 0 <= j < |todo[1..]| && SameContract(x, todo[1..][j]) && (x == todo[1..][j] || x.isAdjusted);
        assert todo[1..][j] == todo[j + 1];
      }
    }
    var l := [q] + st.sortedQuoteList;
    forall j | 0 <= j < |todo|
      ensures SameContract(l[j], todo[j]) && (l[j] == todo[j] || l[j].isAdjusted)
    {
      if j > 0 {
        assert l[j] == st.sortedQuoteList[j - 1] && todo[j] == todo[1..][j - 1];
      }
    }
  }

  /** `fill_arbitrage_consistent_set_with_adjusted_quotes` (and its forward twin): visit the
      quotes left pending in order; move each premium into its bounds (`adjust_quote`) and
      insert the quote. A lookup or forward bound that raises ends the pass. */
  function AdjustedFill(t: SliceTerms, previous: seq<FilteredSlice>, s: seq<Quote>, todo: seq<Quote>): (r: Result<SliceState>)
    requires Shaped(t, s) && AllReady(previous)
    ensures r.Err? ==> FillError(r.error)
    ensures r.Err? && |previous| == 0 ==> r.error == LookupFailed
    ensures r.Ok? ==> AdjustedFillKeeps(t, previous, s, todo, r.value)
    decreases |todo|
  {
    if |todo| == 0 then Ok(SliceState(s, []))
    else
      var bounds :- ForwardBounds(t, previous, s, todo[0]);
      var q := AdjustQuote(t, todo[0], bounds.0, bounds.1);
      InsertStep(t, s, q);
      var st :- AdjustedFill(t, previous, InsortLeft(s, q, QuoteLess), todo[1..]);
      AdjustedAboveFloor(t, previous, s, todo[0]);
      AdjustedAccounting(t, previous, s, todo, q, st);
      Ok(SliceState(st.consistentSet, [q] + st.sortedQuoteList))
  }

  /** A fill's result with `rest` in front of the quotes it leaves pending; a failure stays one. */
  function Prepended(rest: seq<Quote>, r: Result<SliceState>): (p: Result<SliceState>)
    ensures p.Ok? <==> r.Ok?
    ensures r.Err? ==> p == r
    ensures r.Ok? ==> p.value.consistentSet == r.value.consistentSet
                      && p.value.sortedQuoteList == rest + r.value.sortedQuoteList
  {
    if r.Ok? then Ok(SliceState(r.value.consistentSet, rest + r.value.sortedQuoteList)) else r
  }

  lemma PrependedNothing(r: Result<SliceState>)
    ensures Prepended([], r) == r
  {
    if r.Ok? {
      assert [] + r.value.sortedQuoteList == r.value.sortedQuoteList;
    }
  }

  lemma PrependedTwice(a: seq<Quote>, b: seq<Quote>, r: Result<SliceState>)
    ensures Prepended(a, Prepended(b, r)) == Prepended(a + b, r)
  {
    if r.Ok? {
      assert a + (b + r.value.sortedQuoteList) == (a + b) + r.value.sortedQuoteList;
    }
  }

  /** One turn of the adjusted fill's loop: the first pending quote, repriced into its bounds,
      is inserted and stays in front of the rest; a lookup or bound that raises ends the fill. */
  lemma AdjustedFillStep(t: SliceTerms, previous: seq<FilteredSlice>, s: seq<Quote>, todo: seq<Quote>)
    requires Shaped(t, s) && AllReady(previous) && |todo| > 0
    ensures var b := ForwardBounds(t, previous, s, todo[0]);
            b.Ok? ==> Shaped(t, InsortLeft(s, AdjustQuote(t, todo[0], b.value.0, b.value.1), QuoteLess))
    ensures var b := ForwardBounds(t, previous, s, todo[0]);
            AdjustedFill(t, previous, s, todo) ==
              if b.Err? then Err(b.error)
              else
                var q := AdjustQuote(t, todo[0], b.value.0, b.value.1);
                Prepended([q], AdjustedFill(t, previous, InsortLeft(s, q, QuoteLess), todo[1..]))
  {
    var b := ForwardBounds(t, previous, s, todo[0]);
    if b.Ok? {
      InsertStep(t, s, AdjustQuote(t, todo[0], b.value.0, b.value.1));
    }
  }

  /** The first-ranked quote, which the initial set takes in with no lookup, is not left of
      strike 0. */
  predicate FirstStrikeNonNegative(pending: seq<Quote>) {
    |pending| > 0 ==> pending[0].strike >= 0.0
  }

  /** `compute_initial_arbitrage_consistent_set`: pop the first-ranked quote (`list.remove`),
      bring it within the theoretical bounds, and start the set with the strike-0 quote and it. */
  function InitialSet(t: SliceTerms, pending: seq<Quote>): (st: SliceState)
    requires t.forward != 0.0 && |pending| > 0 && FirstStrikeNonNegative(pending)
    ensures Shaped(t, st.consistentSet)
    ensures st.sortedQuoteList == pending[1..]
    ensures st.consistentSet == [Quote0(t), TruncateToTheoreticalBounds(t, pending[0])]
  {
    var first := pending[0];
    var rest := RemoveQuote(pending, first);
    assert rest == pending[1..];
    SliceState([Quote0(t), TruncateToTheoreticalBounds(t, first)], rest)
  }

  /** The result of a filtering pass over `pending`: the set is the strike-0 quote followed by
      the filtered list, sorted by strike; the filtered list holds every pending strike as
      often as `pending` does, each quote being a pending quote or a repricing of one. */
  ghost predicate Filtered(t: SliceTerms, pending: seq<Quote>, st: SliceState) {
    && Shaped(t, st.consistentSet)
    && st.consistentSet == [Quote0(t)] + st.sortedQuoteList
    && multiset(Strikes(st.sortedQuoteList)) == multiset(Strikes(pending))
    && (forall i :: 0 <= i < |st.sortedQuoteList| ==> DerivedFrom(st.sortedQuoteList[i], pending))
  }

  /** Every quote of the set `c` after the strike-0 quote, but the truncated first-ranked
      quote `first`, is above the floor. */
  ghost predicate FloorKeptBesides(previous: seq<FilteredSlice>, t: SliceTerms, c: seq<Quote>, first: Quote)
    requires AllReady(previous)
  {
    forall i :: 1 <= i < |c| && c[i] != first ==> AboveFloor(previous, t, c[i])
  }

  /** Every quote of the set `c` after the strike-0 quote is above the floor. */
  ghost predicate FloorKept(previous: seq<FilteredSlice>, t: SliceTerms, c: seq<Quote>)
    requires AllReady(previous)
  {
    forall i :: 1 <= i < |c| ==> AboveFloor(previous, t, c[i])
  }

  /** A quote after the head of `c`, other than the second quote of `init` (which has the same
      head), was added to `init` on the way to `c`. */
  lemma AddedAfterHead(init: seq<Quote>, c: seq<Quote>, i: nat)
    requires |init| == 2 && 1 <= i < |c| && c[0] == init[0] && c[i] != init[1]
    ensures c[i] in multiset(c) - multiset(init)
  {
    var x := c[i];
    assert c == [c[0]] + c[1..];
    assert x in c[1..];
    assert multiset(c)[x] == multiset([c[0]])[x] + multiset(c[1..])[x];
    assert init == [init[0]] + [init[1]];
    assert multiset(init)[x] == multiset([init[0]])[x];
  }

  /** A quote added on the way from `a` through `b` to `c` was added in one of the two steps. */
  lemma AddedInOneStep(a: multiset<Quote>, b: multiset<Quote>, c: multiset<Quote>, x: Quote)
    requires a <= b <= c && x in c - a
    ensures x in c - b || x in b - a
  {
  }

  /** The bookkeeping of one pass, from the three passes' own accounts: the filtered list has
      the pending strikes, every quote of it comes from a pending one, and all but the
      truncated first-ranked quote are above the floor. */
  lemma PassAccounting(t: SliceTerms, previous: seq<FilteredSlice>, pending: seq<Quote>, f: SliceState, g: SliceState)
    requires t.forward != 0.0 && |pending| > 0 && FirstStrikeNonNegative(pending) && AllReady(previous)
    requires InitialFillKeeps(t, previous, InitialSet(t, pending).consistentSet, pending[1..], pending[1..], f)
    requires AdjustedFillKeeps(t, previous, f.consistentSet, f.sortedQuoteList, g)
    ensures Filtered(t, pending, SliceState(g.consistentSet, g.consistentSet[1..]))
    ensures FloorKeptBesides(previous, t, g.consistentSet, TruncateToTheoreticalBounds(t, pending[0]))
  {
    var init := InitialSet(t, pending).consistentSet;
    var c := g.consistentSet;
    assert c == [c[0]] + c[1..];
    PassStrikes(t, pending, init, f, c);
    var first := TruncateToTheoreticalBounds(t, pending[0]);
    forall j | 0 <= j < |f.sortedQuoteList|
      ensures DerivedFrom(f.sortedQuoteList[j], pending)
    {
      var x := f.sortedQuoteList[j];
      assert x in multiset(f.sortedQuoteList);
      assert x in pending[1..];
      DerivedFromMember(x, pending);
    }
    forall i | 1 <= i < |c| && c[i] != first
      ensures DerivedFrom(c[i], pending) && AboveFloor(previous, t, c[i])
    {
      AddedAfterHead(init, c, i);
      AddedInOneStep(multiset(init), multiset(f.consistentSet), multiset(c), c[i]);
      if c[i] in multiset(c) - multiset(f.consistentSet) {
        DerivedFromTransitive(c[i], f.sortedQuoteList, pending);
      } else {
        DerivedFromMember(c[i], pending);
      }
    }
    forall i | 0 <= i < |c| - 1
      ensures DerivedFrom(c[1..][i], pending)
    {
      assert c[1..][i] == c[i + 1];
      if c[i + 1] == first {
        assert SameContract(c[i + 1], pending[0]);
      }
    }
  }

  /** Every pending strike ends up in the filtered list, as often as it is pending. */
  lemma PassStrikes(t: SliceTerms, pending: seq<Quote>, s: seq<Quote>, f: SliceState, c: seq<Quote>)
    requires t.forward != 0.0 && |pending| > 0
    requires s == [Quote0(t), TruncateToTheoreticalBounds(t, pending[0])]
    requires multiset(Strikes(f.consistentSet)) + multiset(Strikes(f.sortedQuoteList))
             == multiset(Strikes(s)) + multiset(Strikes(pending[1..]))
    requires multiset(Strikes(c)) == multiset(Strikes(f.consistentSet)) + multiset(Strikes(f.sortedQuoteList))
    requires |c| > 0 && c[0] == Quote0(t)
    ensures multiset(Strikes(c[1..])) == multiset(Strikes(pending))
  {
    StrikesOfFirst(c);
    StrikesOfFirst(s);
    StrikesOfFirst(s[1..]);
    StrikesOfFirst(pending);
    assert s[1..][1..] == [];
    var zero := multiset{0.0};
    var x := multiset(Strikes(c[1..]));
    var y := multiset(Strikes(pending));
    assert zero + x == zero + y by {
      assert multiset(Strikes(s)) + multiset(Strikes(pending[1..])) == zero + multiset{pending[0].strike} + multiset(Strikes(pending[1..]));
    }
    assert x == (zero + x) - zero;
    assert y == (zero + y) - zero;
  }

  /** One filtering pass from a pending list: the initial set, the initial fill, the adjusted
      fill, then `set_filtered_sorted_quote_list` (the set without the strike-0 quote, which
      `list.remove` finds first). Popping from an empty list raises IndexError. */
  function FillSlice(t: SliceTerms, previous: seq<FilteredSlice>, pending: seq<Quote>): (r: Result<SliceState>)
    requires t.forward != 0.0 && FirstStrikeNonNegative(pending) && AllReady(previous)
    ensures |pending| == 0 ==> r == Err(IndexOutOfRange)
    ensures |pending| > 0 && r.Err? ==> FillError(r.error)
    ensures |pending| > 0 && |previous| == 0 && r.Err? ==> r.error == LookupFailed
    ensures r.Ok? ==> Filtered(t, pending, r.value)
    ensures r.Ok? ==> FloorKeptBesides(previous, t, r.value.consistentSet, TruncateToTheoreticalBounds(t, pending[0]))
  {
    if |pending| == 0 then Err(IndexOutOfRange)
    else
      var init := InitialSet(t, pending);
      var f :- InitialFill(t, previous, init.consistentSet, init.sortedQuoteList, init.sortedQuoteList);
      var g :- AdjustedFill(t, previous, f.consistentSet, f.sortedQuoteList);
      PassAccounting(t, previous, pending, f, g);
      var c := g.consistentSet;
      assert RemoveQuote(c, Quote0(t)) == c[1..] by {
        assert HasStrike(c, 0.0) && c[0].strike == 0.0;
      }
      Ok(SliceState(c, RemoveQuote(c, Quote0(t))))
  }

  /** `filter_in_strike_dimension`: one pass with the strike bounds alone. It fails with
      IndexError exactly on an empty slice and otherwise only by a lookup, which on quotes at
      distinct positive strikes never fails. */
  function StrikeFilter(t: SliceTerms, pending: seq<Quote>): (r: Result<SliceState>)
    requires t.forward != 0.0 && FirstStrikeNonNegative(pending)
    ensures r.Err? ==> r.error == IndexOutOfRange || r.error == LookupFailed
    ensures r.Err? ==> (r.error == IndexOutOfRange <==> |pending| == 0)
    ensures r.Ok? ==> Filtered(t, pending, r.value) && |r.value.sortedQuoteList| == |pending|
    ensures Candidates(pending) ==> (r.Err? <==> |pending| == 0)
    ensures Candidates(pending) && r.Ok? ==> StrictlySortedBy(r.value.consistentSet, QuoteLess)
  {
    var r := FillSlice(t, [], pending);
    FillSliceDistinct(t, [], pending);
    if r.Ok? then
      assert |Strikes(r.value.sortedQuoteList)| == |Strikes(pending)| by {
        assert |multiset(Strikes(r.value.sortedQuoteList))| == |multiset(Strikes(pending))|;
      }
      r
    else r
  }

  /** On distinct strikes, `list.remove` finds the visited quote itself: the pending list
      loses exactly it. */
  lemma RemovePendingQuote(rejected: seq<Quote>, todo: seq<Quote>)
    requires |todo| > 0 && Candidates(rejected + todo)
    ensures HasStrike(rejected + todo, todo[0].strike)
    ensures RemoveQuote(rejected + todo, todo[0]) == rejected + todo[1..]
  {
    var list := rejected + todo;
    var k := |rejected|;
    assert list[k] == todo[0];
    assert list[..k] + list[k + 1..] == rejected + todo[1..];
  }

  /** The pending quotes, with the one visited moved to the front, are still insertable. */
  lemma InsertableRotate(s: seq<Quote>, rejected: seq<Quote>, todo: seq<Quote>)
    requires |todo| > 0 && Insertable(s, rejected + todo)
    ensures Insertable(s, [todo[0]] + (rejected + todo[1..]))
  {
    var a := rejected + todo;
    var b := [todo[0]] + (rejected + todo[1..]);
    assert a == rejected + [todo[0]] + todo[1..];
    assert multiset(a) == multiset(b);
    PermutationKeepsCandidates(a, b);
    forall j | 0 <= j < |b|
      ensures StrikeFree(s, b[j].strike)
    {
      assert b[j] in multiset(a);
      var i :| 0 <= i < |a| && a[i] == b[j];
    }
  }

  /** On distinct strikes, admitting the visited quote keeps the set strictly sorted and the
      pending list, now without that quote, insertable. */
  lemma AdmitDistinct(s: seq<Quote>, rejected: seq<Quote>, todo: seq<Quote>)
    requires StrictlySortedBy(s, QuoteLess) && |todo| > 0 && Insertable(s, rejected + todo)
    ensures HasStrike(rejected + todo, todo[0].strike)
    ensures RemoveQuote(rejected + todo, todo[0]) == rejected + todo[1..]
    ensures var s' := InsortLeft(s, todo[0], QuoteLess);
            StrictlySortedBy(s', QuoteLess) && Insertable(s', rejected + todo[1..])
    ensures multiset(Strikes(todo[1..])) <= multiset(Strikes(rejected + todo[1..]))
  {
    var q := todo[0];
    RemovePendingQuote(rejected, todo);
    InsertableRotate(s, rejected, todo);
    InsertStepDistinct(s, [q] + (rejected + todo[1..]), q);
    assert ([q] + (rejected + todo[1..]))[1..] == rejected + todo[1..];
    StrikesOfConcat(rejected, todo[1..]);
  }

  /** On distinct strikes, leaving the visited quote pending keeps the pending list. */
  lemma RejectDistinct(s: seq<Quote>, rejected: seq<Quote>, todo: seq<Quote>)
    requires |todo| > 0
    ensures (rejected + [todo[0]]) + todo[1..] == rejected + todo
    ensures multiset(Strikes(todo[1..])) <= multiset(Strikes((rejected + [todo[0]]) + todo[1..]))
  {
    assert (rejected + [todo[0]]) + todo[1..] == rejected + todo;
    StrikesOfConcat(rejected + [todo[0]], todo[1..]);
  }

  /** On distinct strikes, the initial fill fails no lookup and keeps the set strictly sorted,
      and the quotes it leaves pending are insertable into the set: the adjusted fill's
      insertions repeat no strike either. */
  lemma {:induction false} InitialFillDistinct(t: SliceTerms, previous: seq<FilteredSlice>, s: seq<Quote>,
                                               rejected: seq<Quote>, todo: seq<Quote>)
    requires Shaped(t, s) && StrictlySortedBy(s, QuoteLess) && AllDistinctReady(previous)
    requires Insertable(s, rejected + todo)
    requires multiset(Strikes(todo)) <= multiset(Strikes(rejected + todo))
    ensures var r := InitialFill(t, previous, s, rejected + todo, todo);
            && (r.Err? ==> r.error == LowerBoundMoneynessTooHigh)
            && (r.Ok? ==> StrictlySortedBy(r.value.consistentSet, QuoteLess)
                          && Insertable(r.value.consistentSet, r.value.sortedQuoteList))
    decreases |todo|
  {
    if |todo| > 0 {
      var q := todo[0];
      InitialFillStep(t, previous, s, rejected + todo, todo);
      assert (rejected + todo)[|rejected|] == q;
      LookupsOnDistinctStrikes(t, s, q);
      var v := IsValidForward(t, previous, s, q);
      if v == Ok(true) {
        AdmitDistinct(s, rejected, todo);
        InitialFillDistinct(t, previous, InsortLeft(s, q, QuoteLess), rejected, todo[1..]);
      } else if v.Ok? {
        RejectDistinct(s, rejected, todo);
        InitialFillDistinct(t, previous, s, rejected + [q], todo[1..]);
      }
    }
  }

  /** On distinct strikes, the adjusted fill fails no lookup and keeps the set strictly
      sorted. */
  lemma {:induction false} AdjustedFillDistinct(t: SliceTerms, previous: seq<FilteredSlice>, s: seq<Quote>, todo: seq<Quote>)
    requires Shaped(t, s) && StrictlySortedBy(s, QuoteLess) && AllDistinctReady(previous)
    requires Insertable(s, todo)
    ensures var r := AdjustedFill(t, previous, s, todo);
            && (r.Err? ==> r.error == LowerBoundMoneynessTooHigh)
            && (r.Ok? ==> StrictlySortedBy(r.value.consistentSet, QuoteLess))
    decreases |todo|
  {
    if |todo| > 0 {
      AdjustedFillStep(t, previous, s, todo);
      LookupsOnDistinctStrikes(t, s, todo[0]);
      var b := ForwardBounds(t, previous, s, todo[0]);
      if b.Ok? {
        var q := AdjustQuote(t, todo[0], b.value.0, b.value.1);
        InsertStepDistinct(s, todo, q);
        AdjustedFillDistinct(t, previous, InsortLeft(s, q, QuoteLess), todo[1..]);
      }
    }
  }

  /** On distinct positive strikes, with earlier slices filtered from distinct strikes, a pass
      fails no lookup and keeps the set strictly sorted; with no earlier slice it cannot fail
      at all. */
  lemma FillSliceDistinct(t: SliceTerms, previous: seq<FilteredSlice>, pending: seq<Quote>)
    requires t.forward != 0.0 && FirstStrikeNonNegative(pending) && AllReady(previous)
    ensures Candidates(pending) && AllDistinctReady(previous) && |pending| > 0 ==>
              var r := FillSlice(t, previous, pending);
              && (r.Err? ==> r.error == LowerBoundMoneynessTooHigh)
              && (r.Ok? ==> StrictlySortedBy(r.value.consistentSet, QuoteLess))
    ensures Candidates(pending) && |previous| == 0 && |pending| > 0 ==> FillSlice(t, previous, pending).Ok?
  {
    if Candidates(pending) && AllDistinctReady(previous) && |pending| > 0 {
      var init := InitialSet(t, pending);
      var s := init.consistentSet;
      var rest := pending[1..];
      assert StrictlySortedBy(s, QuoteLess);
      assert Candidates(rest);
      forall j | 0 <= j < |rest|
        ensures StrikeFree(s, rest[j].strike)
      {
        assert rest[j] == pending[j + 1];
      }
      assert [] + rest == rest;
      InitialFillDistinct(t, previous, s, [], rest);
      var f := InitialFill(t, previous, s, rest, rest);
      if f.Ok? {
        AdjustedFillDistinct(t, previous, f.value.consistentSet, f.value.sortedQuoteList);
      }
    }
  }

  /** `attempt_forward_surface_filter_of_quote_slice`: one pass with the forward bounds, then
      the check that no earlier filtered premium exceeds this slice's scaled upper bound
      (PreviousPremiumTooHighException); a lookup that raises during that check ends the
      attempt too. With no filtered slice it is the strike filter. */
  function ForwardAttempt(t: SliceTerms, previous: seq<FilteredSlice>, pending: seq<Quote>): (r: Result<SliceState>)
    requires PositiveTerms(t) && FirstStrikeNonNegative(pending) && AllReady(previous)
    ensures r.Ok? ==> Filtered(t, pending, r.value)
    ensures r.Ok? ==> PreviousPremiumExceeds(previous, t, r.value.consistentSet) == Ok(false)
    ensures r.Ok? ==> |pending| > 0 && FloorKeptBesides(previous, t, r.value.consistentSet, TruncateToTheoreticalBounds(t, pending[0]))
    ensures && r.Ok? && |pending| > 0
            && TheoreticalMinimumPrice(t, pending[0].strike) <= pending[0].callPremium <= TheoreticalMaximumPrice(t)
            && AboveFloor(previous, t, pending[0])
            ==> FloorKept(previous, t, r.value.consistentSet)
    ensures r.Err? ==> r.error in {IndexOutOfRange, LookupFailed, LowerBoundMoneynessTooHigh, PreviousPremiumTooHigh}
    ensures r.Err? ==> (r.error == IndexOutOfRange <==> |pending| == 0)
    ensures Candidates(pending) && AllDistinctReady(previous) && r.Err? ==> r.error != LookupFailed
    ensures Candidates(pending) && AllDistinctReady(previous) && r.Ok? ==>
              StrictlySortedBy(r.value.consistentSet, QuoteLess)
    ensures |previous| == 0 ==> r == StrikeFilter(t, pending)
  {
    var f := FillSlice(t, previous, pending);
    FillSliceDistinct(t, previous, pending);
    if f.Err? then Err(f.error)
    else
      var st := f.value;
      PreviousPremiumExceedsSucceeds(previous, t, st.consistentSet);
      var exceeds := PreviousPremiumExceeds(previous, t, st.consistentSet);
      if exceeds.Err? then Err(exceeds.error)
      else if exceeds.value then Err(PreviousPremiumTooHigh)
      else Ok(st)
  }
}
