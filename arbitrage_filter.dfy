/** The strike filters of the current lineage
    (python/qproc/internal/arbitrage_filter/arbitrage_filter.py). Per expiry, the quotes are
    ranked by liquidity proxy, the feasible ones are admitted greedily into an arbitrage-free
    set and the others queued; the repricing filter then moves every queued quote into the live
    bounds and admits it, the discarding filter drops them.

    The first part specifies one slice's run on values; the `StrikeFilter` class below runs it
    on the surface in place and is proved against that specification. */
module ArbitrageFilters {
  import opened Common
  import opened Sorting
  import opened Arithmetic
  import opened QuoteStructures
  import opened ArbitrageFreeSets

  /** `StrikeFilter` reprices the infeasible quotes; its subclass `DiscardFilter` drops them. */
  datatype FilterKind = StrikeKind | DiscardKind

  // ---------------------------------------------------------------------------------------
  // Ranking by liquidity

  /** Liquidity proxies do not increase along `s`. */
  ghost predicate LiquidityDescending(s: seq<Quote>) {
    forall i, j :: 0 <= i < j < |s| ==> s[j].liqProxy <= s[i].liqProxy
  }

  /** Places `q`, which came before every quote of `t`, behind the strictly more liquid ones. */
  function InsertByLiquidity(q: Quote, t: seq<Quote>): (r: seq<Quote>)
    ensures |r| == |t| + 1
    ensures r[0] == q || (t != [] && r[0] == t[0])
  {
    if t == [] || t[0].liqProxy <= q.liqProxy then [q] + t
    else
      assert t == [t[0]] + t[1..];
      [t[0]] + InsertByLiquidity(q, t[1..])
  }

  lemma {:induction false} InsertByLiquidityDescending(q: Quote, t: seq<Quote>)
    requires LiquidityDescending(t)
    ensures LiquidityDescending(InsertByLiquidity(q, t))
    decreases |t|
  {
    if t != [] && t[0].liqProxy > q.liqProxy {
      var rest := InsertByLiquidity(q, t[1..]);
      InsertByLiquidityDescending(q, t[1..]);
      var r := [t[0]] + rest;
      forall i, j | 0 <= i < j < |r|
        ensures r[j].liqProxy <= r[i].liqProxy
      {
        if i == 0 {
          assert r[j] == rest[j - 1];
          assert rest[j - 1].liqProxy <= rest[0].liqProxy;
        } else {
          assert r[i] == rest[i - 1] && r[j] == rest[j - 1];
        }
      }
    }
  }

  /** `list.sort(key=liq_proxy, reverse=True)`: the stable sort by liquidity proxy, most liquid
      first, quotes of equal proxy in their original order. */
  function SortByLiquidity(s: seq<Quote>): (r: seq<Quote>)
    ensures |r| == |s|
  {
    if s == [] then []
    else
      assert s == [s[0]] + s[1..];
      InsertByLiquidity(s[0], SortByLiquidity(s[1..]))
  }

  /** Inserting by liquidity adds exactly the one quote. */
  lemma {:induction false} InsertByLiquidityPermutes(q: Quote, t: seq<Quote>)
    ensures multiset(InsertByLiquidity(q, t)) == multiset(t) + multiset{q}
    decreases |t|
  {
    if t != [] && t[0].liqProxy > q.liqProxy {
      InsertByLiquidityPermutes(q, t[1..]);
      assert t == [t[0]] + t[1..];
    }
  }

  /** The ranking reorders the quotes and drops or duplicates none. */
  lemma {:induction false} SortByLiquidityPermutes(s: seq<Quote>)
    ensures multiset(SortByLiquidity(s)) == multiset(s)
    decreases |s|
  {
    if s != [] {
      SortByLiquidityPermutes(s[1..]);
      InsertByLiquidityPermutes(s[0], SortByLiquidity(s[1..]));
      assert s == [s[0]] + s[1..];
    }
  }

  /** The ranking puts the most liquid quotes first. */
  lemma {:induction false} SortByLiquidityDescending(s: seq<Quote>)
    ensures LiquidityDescending(SortByLiquidity(s))
    decreases |s|
  {
    if s != [] {
      SortByLiquidityDescending(s[1..]);
      InsertByLiquidityDescending(s[0], SortByLiquidity(s[1..]));
    }
  }

  /** The quotes of `s` whose liquidity proxy is `p`, in their order in `s`. */
  function WithProxy(s: seq<Quote>, p: real): (r: seq<Quote>)
    ensures |r| <= |s|
    ensures forall i :: 0 <= i < |r| ==> r[i].liqProxy == p && r[i] in s
  {
    if s == [] then []
    else (if s[0].liqProxy == p then [s[0]] else []) + WithProxy(s[1..], p)
  }

  /** The quotes with proxy `p` of a list with `x` in front. */
  lemma WithProxyCons(x: Quote, s: seq<Quote>, p: real)
    ensures WithProxy([x] + s, p) == (if x.liqProxy == p then [x] else []) + WithProxy(s, p)
  {
    assert ([x] + s)[1..] == s;
  }

  /** Inserting `q` by liquidity puts it ahead of every quote of `t` with the same proxy. */
  lemma {:induction false} InsertByLiquidityStable(q: Quote, t: seq<Quote>, p: real)
    ensures WithProxy(InsertByLiquidity(q, t), p) == (if q.liqProxy == p then [q] else []) + WithProxy(t, p)
    decreases |t|
  {
    if t == [] || t[0].liqProxy <= q.liqProxy {
      WithProxyCons(q, t, p);
    } else {
      var rest := InsertByLiquidity(q, t[1..]);
      assert InsertByLiquidity(q, t) == [t[0]] + rest;
      InsertByLiquidityStable(q, t[1..], p);
      WithProxyCons(t[0], rest, p);
      WithProxyCons(t[0], t[1..], p);
      assert t == [t[0]] + t[1..];
      // `t[0]` is strictly more liquid than `q`, so at most one of them has proxy `p`.
      OneOfTwoInFront(if t[0].liqProxy == p then [t[0]] else [], if q.liqProxy == p then [q] else [], WithProxy(t[1..], p));
    }
  }

  /** Two lists of which one is empty may change places in front of a third. */
  lemma OneOfTwoInFront(a: seq<Quote>, b: seq<Quote>, w: seq<Quote>)
    requires a == [] || b == []
    ensures a + (b + w) == b + (a + w)
  {
    if a == [] {
      assert a + (b + w) == b + w == b + (a + w);
    } else {
      assert a + (b + w) == a + w == b + (a + w);
    }
  }

  /** The ranking is stable: quotes of equal liquidity proxy keep their original order. */
  lemma {:induction false} SortByLiquidityStable(s: seq<Quote>, p: real)
    ensures WithProxy(SortByLiquidity(s), p) == WithProxy(s, p)
    decreases |s|
  {
    if s != [] {
      SortByLiquidityStable(s[1..], p);
      InsertByLiquidityStable(s[0], SortByLiquidity(s[1..]), p);
    }
  }

  // ---------------------------------------------------------------------------------------
  // One slice, on values

  /** `process_quote_slice`: one iteration per queued quote, taken from the front, until the
      queue is empty. */
  function Process(a: seq<Quote>, queue: seq<Quote>, complement: seq<Quote>): Result<(seq<Quote>, seq<Quote>)>
    requires Shaped(a)
    decreases |queue|, 1
  {
    if queue == [] then Ok((a, complement)) else ProcessIteration(a, queue, complement)
  }

  /** `perform_process_iteration`: the head of the queue is added to the set `a` when feasible
      and appended to the complement when not; a strike that is not interior makes the bound
      lookups raise. */
  function ProcessIteration(a: seq<Quote>, queue: seq<Quote>, complement: seq<Quote>): Result<(seq<Quote>, seq<Quote>)>
    requires Shaped(a) && queue != []
    decreases |queue|, 0
  {
    if !IsInteriorStrike(queue[0].strike) then Err(LookupFailed)
    else if Feasible(a, queue[0]) then
      InsortKeepsShape(a, queue[0]);
      Process(InsortLeft(a, queue[0], QuoteLess), queue[1..], complement)
    else
      Process(a, queue[1..], complement + [queue[0]])
  }

  /** The point a fraction `t` of the way from `lb` to `ub`. */
  function Blend(lb: real, ub: real, t: real): real {
    lb + t * (ub - lb)
  }

  /** The repricing rule of `perform_adjust_iteration`: a mid below the bounds moves to
      lb + λ(ub - lb), one above them to lb + (1 - λ)(ub - lb); a feasible mid is an error. */
  function AdjustedPrice(mid: real, lb: real, ub: real, smoothing: real): Result<real> {
    if mid < lb then Ok(Blend(lb, ub, smoothing))
    else if mid > ub then Ok(Blend(lb, ub, 1.0 - smoothing))
    else Err(QuoteAlreadyFeasible)
  }

  /** `adjust_remaining_quotes`: one iteration per complement entry, taken from the front,
      until the complement is empty. */
  function Adjust(a: seq<Quote>, complement: seq<Quote>, smoothing: real): Result<seq<Quote>>
    requires Shaped(a)
    decreases |complement|, 1
  {
    if complement == [] then Ok(a) else AdjustIteration(a, complement, smoothing)
  }

  /** `perform_adjust_iteration`: the head of the complement is repriced against the live set
      (which holds the quotes repriced before it) and added to it. */
  function AdjustIteration(a: seq<Quote>, complement: seq<Quote>, smoothing: real): Result<seq<Quote>>
    requires Shaped(a) && complement != []
    decreases |complement|, 0
  {
    var q := complement[0];
    if !IsInteriorStrike(q.strike) then Err(LookupFailed)
    else
      match AdjustedPrice(q.Mid(), LowerBound(a, q), UpperBound(a, q), smoothing)
      case Err(e) => Err(e)
      case Ok(price) =>
        var adjusted := q.SetPrice(price, MidSide);
        InsortKeepsShape(a, adjusted);
        Adjust(InsortLeft(a, adjusted, QuoteLess), complement[1..], smoothing)
  }

  /** The set a slice's quotes end up in: processing in order of liquidity from a fresh set,
      then (repricing filter only) the adjustment of the complement. */
  function FilterSlice(kind: FilterKind, quotes: seq<Quote>, smoothing: real): Result<seq<Quote>> {
    FreshSetIsArbitrageFree();
    match Process([Quote0, QuoteInf], SortByLiquidity(quotes), [])
    case Err(e) => Err(e)
    case Ok((a, complement)) =>
      ProcessShape([Quote0, QuoteInf], SortByLiquidity(quotes), []);
      if kind == DiscardKind then Ok(a) else Adjust(a, complement, smoothing)
  }

  /** The λ an expiry's entry stands for; a missing one (NaN in the source) is never read by
      the discarding filter. */
  function Smoothing(param: Option<real>): real {
    match param
    case Some(smoothing) => smoothing
    case None => 0.0
  }

  // ---------------------------------------------------------------------------------------
  // Properties of one slice's run

  /** Strikes pairwise distinct. */
  ghost predicate DistinctStrikes(s: seq<Quote>) {
    forall i, j :: 0 <= i < j < |s| ==> s[i].strike != s[j].strike
  }

  /** Every strike of `s` is interior and not yet held by `a`. */
  ghost predicate NewInteriorStrikes(a: seq<Quote>, s: seq<Quote>) {
    forall i :: 0 <= i < |s| ==> IsInteriorStrike(s[i].strike) && !HasStrike(a, s[i].strike)
  }

  /** `x` is `y` with some elements left out, order kept. */
  ghost predicate IsSubsequence<T>(x: seq<T>, y: seq<T>)
    decreases |y|
  {
    if x == [] then true
    else if y == [] then false
    else if x[0] == y[0] then IsSubsequence(x[1..], y[1..])
    else IsSubsequence(x, y[1..])
  }

  lemma {:induction false} EmptyIsSubsequence<T>(y: seq<T>)
    ensures IsSubsequence([], y)
  {
  }

  /** Processing keeps the shape of the set. */
  lemma {:induction false} ProcessShape(a: seq<Quote>, queue: seq<Quote>, complement: seq<Quote>)
    requires Shaped(a)
    ensures Process(a, queue, complement).Ok? ==> Shaped(Process(a, queue, complement).value.0)
    decreases |queue|
  {
    if queue != [] {
      var admitted := ProcessBranches(a, queue, complement);
      if IsInteriorStrike(queue[0].strike) {
        if admitted {
          ProcessShape(InsortLeft(a, queue[0], QuoteLess), queue[1..], complement);
        } else {
          ProcessShape(a, queue[1..], complement + [queue[0]]);
        }
      }
    }
  }

  /** Processing fails exactly when some queued strike is not interior. */
  lemma {:induction false} ProcessFails(a: seq<Quote>, queue: seq<Quote>, complement: seq<Quote>)
    requires Shaped(a)
    ensures Process(a, queue, complement).Err? <==> exists i :: 0 <= i < |queue| && !IsInteriorStrike(queue[i].strike)
    ensures Process(a, queue, complement).Err? ==> Process(a, queue, complement).error == LookupFailed
    decreases |queue|
  {
    if queue != [] {
      var admitted := ProcessBranches(a, queue, complement);
      if IsInteriorStrike(queue[0].strike) {
        if admitted {
          ProcessFails(InsortLeft(a, queue[0], QuoteLess), queue[1..], complement);
        } else {
          ProcessFails(a, queue[1..], complement + [queue[0]]);
        }
        if exists i :: 0 <= i < |queue| && !IsInteriorStrike(queue[i].strike) {
          var i :| 0 <= i < |queue| && !IsInteriorStrike(queue[i].strike);
          assert queue[1..][i - 1] == queue[i];
        }
      }
    }
  }

  /** Processing accounts for every quote: each queued quote ends up either in the set or in
      the complement. */
  lemma {:induction false} ProcessAccounting(a: seq<Quote>, queue: seq<Quote>, complement: seq<Quote>)
    requires Shaped(a)
    ensures var r := Process(a, queue, complement);
            r.Ok? ==> multiset(r.value.0) + multiset(r.value.1) == multiset(a) + multiset(queue) + multiset(complement)
    decreases |queue|
  {
    if queue != [] && IsInteriorStrike(queue[0].strike) {
      assert queue == [queue[0]] + queue[1..];
      var admitted := ProcessBranches(a, queue, complement);
      if admitted {
        ProcessAccounting(InsortLeft(a, queue[0], QuoteLess), queue[1..], complement);
      } else {
        ProcessAccounting(a, queue[1..], complement + [queue[0]]);
      }
    }
  }

  /** The complement only grows at its end, by queued quotes in their order of arrival. */
  lemma {:induction false} ProcessComplementOrder(a: seq<Quote>, queue: seq<Quote>, complement: seq<Quote>)
    requires Shaped(a)
    ensures var r := Process(a, queue, complement);
            r.Ok? ==> complement <= r.value.1 && IsSubsequence(r.value.1[|complement|..], queue)
    decreases |queue|
  {
    var r := Process(a, queue, complement);
    if queue == [] {
      EmptyIsSubsequence(queue);
    } else {
      var admitted := ProcessBranches(a, queue, complement);
      if IsInteriorStrike(queue[0].strike) && admitted {
        ProcessComplementOrder(InsortLeft(a, queue[0], QuoteLess), queue[1..], complement);
        if r.Ok? {
          SubsequenceOfTail(r.value.1[|complement|..], queue);
        }
      } else if IsInteriorStrike(queue[0].strike) {
        var c := complement + [queue[0]];
        ProcessComplementOrder(a, queue[1..], c);
        if r.Ok? {
          ComplementStep(r.value.1, complement, queue);
        }
      }
    }
  }

  lemma ComplementStep<T>(out: seq<T>, complement: seq<T>, queue: seq<T>)
    requires queue != []
    requires complement + [queue[0]] <= out && IsSubsequence(out[|complement| + 1..], queue[1..])
    ensures complement <= out && IsSubsequence(out[|complement|..], queue)
  {
    var tail := out[|complement|..];
    assert tail[0] == queue[0] && tail[1..] == out[|complement| + 1..];
  }

  /** A subsequence of the tail of `y` is a subsequence of `y`. */
  lemma {:induction false} SubsequenceOfTail<T>(x: seq<T>, y: seq<T>)
    requires y != [] && IsSubsequence(x, y[1..])
    ensures IsSubsequence(x, y)
    decreases |y|, 1
  {
    if x != [] && x[0] == y[0] {
      SubsequenceDropsHead(x, y[1..]);
    }
  }

  /** Dropping the head of a subsequence keeps a subsequence. */
  lemma {:induction false} SubsequenceDropsHead<T>(x: seq<T>, y: seq<T>)
    requires x != [] && IsSubsequence(x, y)
    ensures IsSubsequence(x[1..], y)
    decreases |y|, 2
  {
    if x[0] == y[0] {
      if x[1..] != [] {
        SubsequenceOfTail(x[1..], y);
      }
    } else {
      SubsequenceDropsHead(x, y[1..]);
      if x[1..] != [] {
        SubsequenceOfTail(x[1..], y);
      }
    }
  }

  /** Admitting only feasible quotes at new strikes keeps the set free of arbitrage, and the
      complement's strikes stay new to it. */
  lemma {:induction false} ProcessKeepsArbitrageFree(a: seq<Quote>, queue: seq<Quote>, complement: seq<Quote>)
    requires ArbitrageFree(a)
    requires DistinctStrikes(complement + queue) && NewInteriorStrikes(a, complement + queue)
    ensures var r := Process(a, queue, complement);
            && r.Ok?
            && ArbitrageFree(r.value.0)
            && DistinctStrikes(r.value.1) && NewInteriorStrikes(r.value.0, r.value.1)
    decreases |queue|
  {
    var all := complement + queue;
    if queue == [] {
      assert all == complement;
    } else {
      var q := queue[0];
      assert q == all[|complement|];
      ProcessStep(a, queue, complement);
      if Feasible(a, q) {
        FeasibleIffInsertionArbitrageFree(a, q);
        AdmittedStrikeLeavesQueue(a, queue, complement);
        ProcessKeepsArbitrageFree(InsortLeft(a, q, QuoteLess), queue[1..], complement);
      } else {
        assert (complement + [q]) + queue[1..] == all;
        ProcessKeepsArbitrageFree(a, queue[1..], complement + [q]);
      }
    }
  }

  /** Once the head of the queue is admitted, the strikes still queued or in the complement
      remain distinct and new to the set. */
  lemma AdmittedStrikeLeavesQueue(a: seq<Quote>, queue: seq<Quote>, complement: seq<Quote>)
    requires Shaped(a) && queue != [] && IsInteriorStrike(queue[0].strike)
    requires DistinctStrikes(complement + queue) && NewInteriorStrikes(a, complement + queue)
    ensures var rest := complement + queue[1..];
            DistinctStrikes(rest) && NewInteriorStrikes(InsortLeft(a, queue[0], QuoteLess), rest)
  {
    var all := complement + queue;
    var q := queue[0];
    assert q == all[|complement|];
    var a' := InsortLeft(a, q, QuoteLess);
    var rest := complement + queue[1..];
    forall i | 0 <= i < |rest|
      ensures rest[i] == all[if i < |complement| then i else i + 1]
    {
    }
    forall i | 0 <= i < |rest|
      ensures IsInteriorStrike(rest[i].strike) && !HasStrike(a', rest[i].strike)
    {
      HasStrikeAfterInsort(a, q, rest[i].strike);
    }
  }

  /** With 0 <= λ <= 1 and ordered bounds the repriced mid lies within the bounds; the rule
      refuses exactly the mids that already do. */
  lemma AdjustedPriceInBounds(mid: real, lb: real, ub: real, smoothing: real)
    ensures AdjustedPrice(mid, lb, ub, smoothing).Err? <==> lb <= mid <= ub
    ensures AdjustedPrice(mid, lb, ub, smoothing).Err? ==> AdjustedPrice(mid, lb, ub, smoothing).error == QuoteAlreadyFeasible
    ensures 0.0 <= smoothing <= 1.0 && lb <= ub && AdjustedPrice(mid, lb, ub, smoothing).Ok? ==>
              lb <= AdjustedPrice(mid, lb, ub, smoothing).value <= ub
  {
    if 0.0 <= smoothing <= 1.0 && lb <= ub {
      FractionWithin(smoothing, ub - lb);
      FractionWithin(1.0 - smoothing, ub - lb);
    }
  }

  /** Repricing keeps the shape of the set. */
  lemma {:induction false} AdjustShape(a: seq<Quote>, complement: seq<Quote>, smoothing: real)
    requires Shaped(a)
    ensures Adjust(a, complement, smoothing).Ok? ==> Shaped(Adjust(a, complement, smoothing).value)
    decreases |complement|
  {
    if complement != [] && IsInteriorStrike(complement[0].strike) {
      var q := complement[0];
      var p := AdjustBranches(a, complement, smoothing);
      if p.Ok? {
        var adjusted := q.SetPrice(p.value, MidSide);
        AdjustShape(InsortLeft(a, adjusted, QuoteLess), complement[1..], smoothing);
      }
    }
  }

  /** Repricing adds one quote per complement entry, at that entry's strike. */
  lemma {:induction false} AdjustStrikes(a: seq<Quote>, complement: seq<Quote>, smoothing: real, k: Strike)
    requires Shaped(a)
    ensures var r := Adjust(a, complement, smoothing);
            r.Ok? ==> && |r.value| == |a| + |complement|
                      && StrikeCount(r.value, k) == StrikeCount(a, k) + StrikeCount(complement, k)
    decreases |complement|
  {
    if complement != [] && IsInteriorStrike(complement[0].strike) {
      var q := complement[0];
      var p := AdjustBranches(a, complement, smoothing);
      if p.Ok? {
        var adjusted := q.SetPrice(p.value, MidSide);
        StrikeCountAfterInsort(a, adjusted, k);
        AdjustStrikes(InsortLeft(a, adjusted, QuoteLess), complement[1..], smoothing, k);
      }
    }
  }

  /** With 0 <= λ <= 1, repricing quotes at new, distinct strikes keeps the set free of
      arbitrage: every repriced quote is feasible when it is added. */
  lemma {:induction false} AdjustKeepsArbitrageFree(a: seq<Quote>, complement: seq<Quote>, smoothing: real)
    requires ArbitrageFree(a) && 0.0 <= smoothing <= 1.0
    requires DistinctStrikes(complement) && NewInteriorStrikes(a, complement)
    ensures Adjust(a, complement, smoothing).Ok? ==> ArbitrageFree(Adjust(a, complement, smoothing).value)
    decreases |complement|
  {
    if complement != [] {
      var q := complement[0];
      BoundsOrdered(a, q);
      AdjustedPriceInBounds(q.Mid(), LowerBound(a, q), UpperBound(a, q), smoothing);
      var p := AdjustedPrice(q.Mid(), LowerBound(a, q), UpperBound(a, q), smoothing);
      AdjustStep(a, complement, smoothing, p);
      if p.Ok? {
        var adjusted := q.SetPrice(p.value, MidSide);
        BoundsDependOnStrikeOnly(a, q, adjusted);
        assert Feasible(a, adjusted);
        FeasibleIffInsertionArbitrageFree(a, adjusted);
        InsortKeepsShape(a, adjusted);
        var a' := InsortLeft(a, adjusted, QuoteLess);
        var rest := complement[1..];
        forall i | 0 <= i < |rest|
          ensures IsInteriorStrike(rest[i].strike) && !HasStrike(a', rest[i].strike)
        {
          assert rest[i] == complement[i + 1];
          HasStrikeAfterInsort(a, adjusted, rest[i].strike);
        }
        AdjustKeepsArbitrageFree(a', rest, smoothing);
      }
    }
  }

  /** One step of `Process`: a strike that is not interior ends the run; otherwise the head of
      the queue is admitted when feasible and queued on the complement when not. */
  lemma ProcessStep(a: seq<Quote>, queue: seq<Quote>, complement: seq<Quote>)
    requires Shaped(a) && queue != []
    ensures !IsInteriorStrike(queue[0].strike) ==> Process(a, queue, complement) == Err(LookupFailed)
    ensures IsInteriorStrike(queue[0].strike) && Feasible(a, queue[0]) ==>
              && Shaped(InsortLeft(a, queue[0], QuoteLess))
              && Process(a, queue, complement) == Process(InsortLeft(a, queue[0], QuoteLess), queue[1..], complement)
    ensures IsInteriorStrike(queue[0].strike) && !Feasible(a, queue[0]) ==>
              Process(a, queue, complement) == Process(a, queue[1..], complement + [queue[0]])
  {
    assert Process(a, queue, complement) == ProcessIteration(a, queue, complement);
    if IsInteriorStrike(queue[0].strike) {
      InsortKeepsShape(a, queue[0]);
    }
  }

  /** `ProcessStep` for a head of the queue at an interior strike, given the outcome of the
      feasibility test: the set and the complement it leaves. */
  lemma ProcessIterationOutcome(a: seq<Quote>, queue: seq<Quote>, complement: seq<Quote>, admitted: bool,
                                a': seq<Quote>, complement': seq<Quote>)
    requires Shaped(a) && Shaped(a') && queue != [] && IsInteriorStrike(queue[0].strike)
    requires admitted == Feasible(a, queue[0])
    requires a' == if admitted then InsortLeft(a, queue[0], QuoteLess) else a
    requires complement' == if admitted then complement else complement + [queue[0]]
    ensures Process(a, queue, complement) == Process(a', queue[1..], complement')
  {
    ProcessStep(a, queue, complement);
  }

  /** `ProcessStep` without naming the feasibility test: `admitted` tells which way the head of
      the queue went. */
  lemma ProcessBranches(a: seq<Quote>, queue: seq<Quote>, complement: seq<Quote>) returns (admitted: bool)
    requires Shaped(a) && queue != []
    ensures !IsInteriorStrike(queue[0].strike) ==> Process(a, queue, complement) == Err(LookupFailed)
    ensures IsInteriorStrike(queue[0].strike) && admitted ==>
              && Shaped(InsortLeft(a, queue[0], QuoteLess))
              && Process(a, queue, complement) == Process(InsortLeft(a, queue[0], QuoteLess), queue[1..], complement)
    ensures IsInteriorStrike(queue[0].strike) && !admitted ==>
              Process(a, queue, complement) == Process(a, queue[1..], complement + [queue[0]])
  {
    ProcessStep(a, queue, complement);
    admitted := IsInteriorStrike(queue[0].strike) && Feasible(a, queue[0]);
  }

  /** One step of `Adjust`: the head of the complement, priced by `AdjustedPrice`, is inserted
      and the rest adjusted; a failed pricing ends the run. */
  lemma AdjustStep(a: seq<Quote>, complement: seq<Quote>, smoothing: real, price: Result<real>)
    requires Shaped(a) && complement != [] && IsInteriorStrike(complement[0].strike)
    requires price == AdjustedPrice(complement[0].Mid(), LowerBound(a, complement[0]), UpperBound(a, complement[0]), smoothing)
    ensures price.Err? ==> Adjust(a, complement, smoothing) == Err(price.error)
    ensures price.Ok? ==>
              var adjusted := complement[0].SetPrice(price.value, MidSide);
              && Shaped(InsortLeft(a, adjusted, QuoteLess))
              && Adjust(a, complement, smoothing) == Adjust(InsortLeft(a, adjusted, QuoteLess), complement[1..], smoothing)
  {
    assert Adjust(a, complement, smoothing) == AdjustIteration(a, complement, smoothing);
    if price.Ok? {
      InsortKeepsShape(a, complement[0].SetPrice(price.value, MidSide));
    }
  }

  /** `AdjustStep` without naming the bounds: `price` is what the head of the complement was
      repriced to, or the repricing rule's error. */
  lemma AdjustBranches(a: seq<Quote>, complement: seq<Quote>, smoothing: real) returns (price: Result<real>)
    requires Shaped(a) && complement != []
    ensures !IsInteriorStrike(complement[0].strike) ==> Adjust(a, complement, smoothing) == Err(LookupFailed)
    ensures IsInteriorStrike(complement[0].strike) && price.Err? ==>
              price.error == QuoteAlreadyFeasible && Adjust(a, complement, smoothing) == Err(price.error)
    ensures IsInteriorStrike(complement[0].strike) && price.Ok? ==>
              var adjusted := complement[0].SetPrice(price.value, MidSide);
              && Shaped(InsortLeft(a, adjusted, QuoteLess))
              && Adjust(a, complement, smoothing) == Adjust(InsortLeft(a, adjusted, QuoteLess), complement[1..], smoothing)
  {
    var q := complement[0];
    if IsInteriorStrike(q.strike) {
      price := AdjustedPrice(q.Mid(), LowerBound(a, q), UpperBound(a, q), smoothing);
      AdjustedPriceInBounds(q.Mid(), LowerBound(a, q), UpperBound(a, q), smoothing);
      AdjustStep(a, complement, smoothing, price);
    } else {
      assert Adjust(a, complement, smoothing) == AdjustIteration(a, complement, smoothing);
      price := Err(LookupFailed);
    }
  }

  /** A slice's run goes through processing and, for the repricing filter, adjustment. */
  lemma FilterSliceSteps(kind: FilterKind, quotes: seq<Quote>, smoothing: real)
    ensures var start := [Quote0, QuoteInf];
            var p := Process(start, SortByLiquidity(quotes), []);
            && Shaped(start)
            && (p.Ok? ==> Shaped(p.value.0))
            && FilterSlice(kind, quotes, smoothing) ==
                 if p.Err? then Err(p.error)
                 else if kind == DiscardKind then Ok(p.value.0)
                 else Adjust(p.value.0, p.value.1, smoothing)
  {
    FreshSetIsArbitrageFree();
    ProcessShape([Quote0, QuoteInf], SortByLiquidity(quotes), []);
  }

  /** A slice's run leaves a set of the shape an `ArbitrageFreeSet` keeps. */
  lemma FilterSliceShape(kind: FilterKind, quotes: seq<Quote>, smoothing: real)
    ensures FilterSlice(kind, quotes, smoothing).Ok? ==> Shaped(FilterSlice(kind, quotes, smoothing).value)
  {
    FilterSliceSteps(kind, quotes, smoothing);
    var p := Process([Quote0, QuoteInf], SortByLiquidity(quotes), []);
    if p.Ok? && kind == StrikeKind {
      AdjustShape(p.value.0, p.value.1, smoothing);
    }
  }

  /** After processing, the set's interior and the complement hold exactly the slice's quotes. */
  lemma ProcessFromFreshSet(quotes: seq<Quote>)
    ensures var p := Process([Quote0, QuoteInf], SortByLiquidity(quotes), []);
            Shaped([Quote0, QuoteInf]) &&
            (p.Ok? ==> multiset(InteriorQuotes(p.value.0)) + multiset(p.value.1) == multiset(quotes))
  {
    var start := [Quote0, QuoteInf];
    FreshSetIsArbitrageFree();
    var queue := SortByLiquidity(quotes);
    SortByLiquidityPermutes(quotes);
    var p := Process(start, queue, []);
    if p.Ok? {
      ProcessShape(start, queue, []);
      ProcessAccounting(start, queue, []);
      var empty: seq<Quote> := [];
      assert multiset(empty) == multiset{};
      InteriorAccounting(p.value.0, p.value.1, quotes);
    }
  }

  /** A set with the synthetic quotes at its ends and a list that together hold the synthetic quotes and the slice's quotes:
      the set's interior and the list hold the slice's quotes. */
  lemma InteriorAccounting(a: seq<Quote>, complement: seq<Quote>, quotes: seq<Quote>)
    requires |a| >= 2 && a[0] == Quote0 && a[|a| - 1] == QuoteInf
    requires multiset(a) + multiset(complement) == multiset([Quote0, QuoteInf]) + multiset(quotes)
    ensures multiset(InteriorQuotes(a)) + multiset(complement) == multiset(quotes)
  {
    var start := [Quote0, QuoteInf];
    var inner := InteriorQuotes(a);
    assert a == [Quote0] + inner + [QuoteInf];
    assert multiset(a) == multiset(start) + multiset(inner);
    assert multiset(a) + multiset(complement) == multiset(start) + (multiset(inner) + multiset(complement));
    Cancel(multiset(start), multiset(inner) + multiset(complement), multiset(quotes));
  }

  lemma Cancel<T>(a: multiset<T>, b: multiset<T>, c: multiset<T>)
    requires a + b == a + c
    ensures b == c
  {
    assert forall x :: b[x] == (a + b)[x] - a[x];
    assert forall x :: c[x] == (a + c)[x] - a[x];
  }

  /** The repricing filter leaves one quote per slice quote, at that quote's strike. */
  lemma RepricingKeepsEveryStrike(quotes: seq<Quote>, smoothing: real)
    ensures var r := FilterSlice(StrikeKind, quotes, smoothing);
            r.Ok? ==>
              && |InteriorQuotes(r.value)| == |quotes|
              && forall k :: StrikeCount(InteriorQuotes(r.value), k) == StrikeCount(quotes, k)
  {
    FilterSliceSteps(StrikeKind, quotes, smoothing);
    ProcessFromFreshSet(quotes);
    var p := Process([Quote0, QuoteInf], SortByLiquidity(quotes), []);
    if p.Ok? {
      AdjustKeepsEveryStrike(p.value.0, p.value.1, smoothing, quotes);
    }
  }

  /** Repricing a complement that, with the set's interior, holds the slice's quotes leaves one
      quote per slice quote, at that quote's strike. */
  lemma AdjustKeepsEveryStrike(a: seq<Quote>, complement: seq<Quote>, smoothing: real, quotes: seq<Quote>)
    requires Shaped(a) && multiset(InteriorQuotes(a)) + multiset(complement) == multiset(quotes)
    ensures var r := Adjust(a, complement, smoothing);
            r.Ok? ==>
              && |InteriorQuotes(r.value)| == |quotes|
              && forall k :: StrikeCount(InteriorQuotes(r.value), k) == StrikeCount(quotes, k)
  {
    AdjustShape(a, complement, smoothing);
    var r := Adjust(a, complement, smoothing);
    if r.Ok? {
      forall k
        ensures StrikeCount(InteriorQuotes(r.value), k) == StrikeCount(quotes, k)
      {
        AdjustKeepsStrikeCount(a, complement, smoothing, quotes, k);
      }
      AdjustStrikes(a, complement, smoothing, Infinity);
      assert |multiset(quotes)| == |InteriorQuotes(a)| + |complement|;
    }
  }

  /** The same, for one strike. */
  lemma AdjustKeepsStrikeCount(a: seq<Quote>, complement: seq<Quote>, smoothing: real, quotes: seq<Quote>, k: Strike)
    requires Shaped(a) && multiset(InteriorQuotes(a)) + multiset(complement) == multiset(quotes)
    ensures var r := Adjust(a, complement, smoothing);
            r.Ok? ==> StrikeCount(InteriorQuotes(r.value), k) == StrikeCount(quotes, k)
  {
    AdjustShape(a, complement, smoothing);
    AdjustStrikes(a, complement, smoothing, k);
    StrikeCountOfSplit(InteriorQuotes(a), complement, quotes, k);
    var r := Adjust(a, complement, smoothing);
    if r.Ok? {
      StrikeCountsMatch(a, complement, r.value, quotes, k);
    }
  }

  /** The count of a strike left after repricing is its count in the slice. */
  lemma StrikeCountsMatch(a: seq<Quote>, complement: seq<Quote>, r: seq<Quote>, quotes: seq<Quote>, k: Strike)
    requires Shaped(a) && Shaped(r)
    requires StrikeCount(InteriorQuotes(a), k) + StrikeCount(complement, k) == StrikeCount(quotes, k)
    requires StrikeCount(r, k) == StrikeCount(a, k) + StrikeCount(complement, k)
    ensures StrikeCount(InteriorQuotes(r), k) == StrikeCount(quotes, k)
  {
    InteriorStrikeCount(a, k);
    InteriorStrikeCount(r, k);
  }

  /** Two lists that together hold the slice's quotes hold each of its strikes as often. */
  lemma StrikeCountOfSplit(x: seq<Quote>, y: seq<Quote>, quotes: seq<Quote>, k: Strike)
    requires multiset(x) + multiset(y) == multiset(quotes)
    ensures StrikeCount(x, k) + StrikeCount(y, k) == StrikeCount(quotes, k)
  {
    assert multiset(x + y) == multiset(x) + multiset(y);
    StrikeCountOfPermutation(x + y, quotes, k);
    StrikeCountOfConcat(x, y, k);
  }

  /** On a shaped set, the count of a strike is its count among the interior quotes, plus one
      for strike 0 and for +infinity. */
  lemma InteriorStrikeCount(a: seq<Quote>, k: Strike)
    requires |a| >= 2 && a[0] == Quote0 && a[|a| - 1] == QuoteInf
    ensures StrikeCount(a, k) == StrikeCount(InteriorQuotes(a), k)
                                 + (if k == Finite(0.0) then 1 else 0) + (if k == Infinity then 1 else 0)
  {
    var inner := InteriorQuotes(a);
    assert a == [Quote0] + (inner + [QuoteInf]);
    StrikeCountOfConcat([Quote0], inner + [QuoteInf], k);
    StrikeCountOfConcat(inner, [QuoteInf], k);
  }

  /** The discarding filter keeps some of the slice's quotes, unchanged. */
  lemma DiscardingKeepsSubset(quotes: seq<Quote>, smoothing: real)
    ensures var r := FilterSlice(DiscardKind, quotes, smoothing);
            r.Ok? ==> multiset(InteriorQuotes(r.value)) <= multiset(quotes)
  {
    FilterSliceSteps(DiscardKind, quotes, smoothing);
    ProcessFromFreshSet(quotes);
  }

  /** Every strike of `s` is interior. */
  ghost predicate AllStrikesInterior(s: seq<Quote>) {
    forall i :: 0 <= i < |s| ==> IsInteriorStrike(s[i].strike)
  }

  /** Quotes taken from a list of interior strikes have interior strikes. */
  lemma SubmultisetInterior(sub: seq<Quote>, s: seq<Quote>)
    requires multiset(sub) <= multiset(s) && AllStrikesInterior(s)
    ensures AllStrikesInterior(sub)
  {
    forall i | 0 <= i < |sub|
      ensures IsInteriorStrike(sub[i].strike)
    {
      assert sub[i] in multiset(sub);
      assert sub[i] in multiset(s);
    }
  }

  /** A slice's run fails on a strike that is not interior, with the lookups' ValueError; the
      discarding filter fails on nothing else. */
  lemma FilterSliceFailsOnStrike(kind: FilterKind, quotes: seq<Quote>, smoothing: real)
    ensures var r := FilterSlice(kind, quotes, smoothing);
            !AllStrikesInterior(quotes) ==> r == Err(LookupFailed)
    ensures var r := FilterSlice(kind, quotes, smoothing);
            kind == DiscardKind ==> (r.Err? <==> !AllStrikesInterior(quotes))
  {
    FilterSliceSteps(kind, quotes, smoothing);
    var queue := SortByLiquidity(quotes);
    SortByLiquidityPermutes(quotes);
    ProcessFails([Quote0, QuoteInf], queue, []);
    if AllStrikesInterior(quotes) {
      SubmultisetInterior(queue, quotes);
    } else if AllStrikesInterior(queue) {
      SubmultisetInterior(quotes, queue);
    }
  }

  /** On interior strikes, the repricing filter can only fail with the repricing rule's
      RuntimeError, on a queued quote that is feasible by the time it is repriced. */
  lemma RepricingFailsOnlyOnFeasible(quotes: seq<Quote>, smoothing: real)
    requires AllStrikesInterior(quotes)
    ensures var r := FilterSlice(StrikeKind, quotes, smoothing);
            r.Err? ==> r.error == QuoteAlreadyFeasible
  {
    FilterSliceSteps(StrikeKind, quotes, smoothing);
    var queue := SortByLiquidity(quotes);
    SortByLiquidityPermutes(quotes);
    SubmultisetInterior(queue, quotes);
    ProcessFails([Quote0, QuoteInf], queue, []);
    ProcessFromFreshSet(quotes);
    var p := Process([Quote0, QuoteInf], queue, []);
    SubmultisetInterior(p.value.1, quotes);
    AdjustOnInteriorStrikes(p.value.0, p.value.1, smoothing);
  }

  /** Repricing quotes at interior strikes can only fail with the repricing rule's error. */
  lemma {:induction false} AdjustOnInteriorStrikes(a: seq<Quote>, complement: seq<Quote>, smoothing: real)
    requires Shaped(a)
    requires AllStrikesInterior(complement)
    ensures Adjust(a, complement, smoothing).Err? ==> Adjust(a, complement, smoothing).error == QuoteAlreadyFeasible
    decreases |complement|
  {
    if complement != [] {
      var q := complement[0];
      var p := AdjustBranches(a, complement, smoothing);
      if p.Ok? {
        var adjusted := q.SetPrice(p.value, MidSide);
        assert forall i :: 0 <= i < |complement[1..]| ==> complement[1..][i] == complement[i + 1];
        AdjustOnInteriorStrikes(InsortLeft(a, adjusted, QuoteLess), complement[1..], smoothing);
      }
    }
  }

  /** No quote of `c` fits the bounds of the set `a`: what the complement holds throughout. */
  ghost predicate AllInfeasible(a: seq<Quote>, c: seq<Quote>)
    requires Shaped(a)
  {
    forall i :: 0 <= i < |c| ==> IsInteriorStrike(c[i].strike) && !Feasible(a, c[i])
  }

  /** Admitting a feasible quote `p` leaves every quote rejected before rejected. */
  lemma AdmissionKeepsInfeasible(a: seq<Quote>, p: Quote, c: seq<Quote>)
    requires ArbitrageFree(a) && IsInteriorStrike(p.strike) && !HasStrike(a, p.strike) && Feasible(a, p)
    requires NewInteriorStrikes(a, c) && AllInfeasible(a, c)
    requires forall i :: 0 <= i < |c| ==> c[i].strike != p.strike
    ensures ArbitrageFree(InsortLeft(a, p, QuoteLess))
    ensures AllInfeasible(InsortLeft(a, p, QuoteLess), c)
  {
    FeasibleIffInsertionArbitrageFree(a, p);
    forall i | 0 <= i < |c|
      ensures !Feasible(InsortLeft(a, p, QuoteLess), c[i])
    {
      InfeasibleAfterAdmission(a, p, c[i]);
    }
  }

  /** Processing from an arbitrage-free set with quotes at distinct new strikes leaves in the
      complement only quotes the final set rejects: a quote rejected once is never feasible
      again, as the set only grows by feasible quotes. */
  lemma {:induction false} ProcessLeavesInfeasible(a: seq<Quote>, queue: seq<Quote>, complement: seq<Quote>)
    requires ArbitrageFree(a)
    requires DistinctStrikes(complement + queue) && NewInteriorStrikes(a, complement + queue)
    requires AllInfeasible(a, complement)
    ensures var r := Process(a, queue, complement);
            r.Ok? && ArbitrageFree(r.value.0) && AllInfeasible(r.value.0, r.value.1)
    decreases |queue|
  {
    var all := complement + queue;
    if queue == [] {
      assert all == complement;
    } else {
      var q := queue[0];
      assert q == all[|complement|];
      ProcessStep(a, queue, complement);
      if Feasible(a, q) {
        forall i | 0 <= i < |complement|
          ensures IsInteriorStrike(complement[i].strike) && !HasStrike(a, complement[i].strike)
          ensures complement[i].strike != q.strike
        {
          assert complement[i] == all[i];
        }
        AdmissionKeepsInfeasible(a, q, complement);
        AdmittedStrikeLeavesQueue(a, queue, complement);
        ProcessLeavesInfeasible(InsortLeft(a, q, QuoteLess), queue[1..], complement);
      } else {
        assert (complement + [q]) + queue[1..] == all;
        ProcessLeavesInfeasible(a, queue[1..], complement + [q]);
      }
    }
  }

  /** With 0 <= λ <= 1, repricing a complement of rejected quotes at distinct new strikes never
      fails: each quote is still rejected when its turn comes, so the repricing rule never meets
      a feasible mid, and the repriced quote is feasible, so the set stays arbitrage-free. */
  lemma {:induction false} AdjustSucceeds(a: seq<Quote>, complement: seq<Quote>, smoothing: real)
    requires ArbitrageFree(a) && 0.0 <= smoothing <= 1.0
    requires DistinctStrikes(complement) && NewInteriorStrikes(a, complement)
    requires AllInfeasible(a, complement)
    ensures Adjust(a, complement, smoothing).Ok?
    decreases |complement|
  {
    if complement != [] {
      var q := complement[0];
      BoundsOrdered(a, q);
      AdjustedPriceInBounds(q.Mid(), LowerBound(a, q), UpperBound(a, q), smoothing);
      var p := AdjustedPrice(q.Mid(), LowerBound(a, q), UpperBound(a, q), smoothing);
      AdjustStep(a, complement, smoothing, p);
      var adjusted := q.SetPrice(p.value, MidSide);
      BoundsDependOnStrikeOnly(a, q, adjusted);
      var rest := complement[1..];
      forall i | 0 <= i < |rest|
        ensures IsInteriorStrike(rest[i].strike) && !HasStrike(a, rest[i].strike)
        ensures !Feasible(a, rest[i]) && rest[i].strike != adjusted.strike
      {
        assert rest[i] == complement[i + 1];
      }
      AdmissionKeepsInfeasible(a, adjusted, rest);
      var a' := InsortLeft(a, adjusted, QuoteLess);
      forall i | 0 <= i < |rest|
        ensures !HasStrike(a', rest[i].strike)
      {
        HasStrikeAfterInsort(a, adjusted, rest[i].strike);
      }
      AdjustSucceeds(a', rest, smoothing);
    }
  }

  /** On a slice with distinct interior strikes and 0 <= λ <= 1, the repricing filter always
      succeeds. */
  lemma RepricingSucceeds(quotes: seq<Quote>, smoothing: real)
    requires DistinctStrikes(quotes) && AllStrikesInterior(quotes)
    requires 0.0 <= smoothing <= 1.0
    ensures FilterSlice(StrikeKind, quotes, smoothing).Ok?
  {
    var start := [Quote0, QuoteInf];
    FreshSetIsArbitrageFree();
    var queue := FreshQueue(quotes);
    assert [] + queue == queue;
    ProcessLeavesInfeasible(start, queue, []);
    ProcessKeepsArbitrageFree(start, queue, []);
    FilterSliceSteps(StrikeKind, quotes, smoothing);
    var (a, complement) := Process(start, queue, []).value;
    AdjustSucceeds(a, complement, smoothing);
  }

  /** The ranked queue of a slice with distinct interior strikes holds distinct strikes new to
      the fresh set. */
  lemma FreshQueue(quotes: seq<Quote>) returns (queue: seq<Quote>)
    requires DistinctStrikes(quotes) && AllStrikesInterior(quotes)
    ensures queue == SortByLiquidity(quotes)
    ensures DistinctStrikes(queue) && NewInteriorStrikes([Quote0, QuoteInf], queue)
  {
    queue := SortByLiquidity(quotes);
    SortByLiquidityPermutes(quotes);
    PermutationKeepsDistinctStrikes(quotes, queue);
    forall i | 0 <= i < |queue|
      ensures IsInteriorStrike(queue[i].strike) && !HasStrike([Quote0, QuoteInf], queue[i].strike)
    {
      assert queue[i] in multiset(quotes);
    }
  }

  /** On a slice with distinct interior strikes and 0 <= λ <= 1, both filters succeed and the
      set a run ends with is free of arbitrage. */
  lemma FilterSliceArbitrageFree(kind: FilterKind, quotes: seq<Quote>, smoothing: real)
    requires DistinctStrikes(quotes) && AllStrikesInterior(quotes)
    requires 0.0 <= smoothing <= 1.0
    ensures var r := FilterSlice(kind, quotes, smoothing);
            r.Ok? && ArbitrageFree(r.value)
  {
    var start := [Quote0, QuoteInf];
    FreshSetIsArbitrageFree();
    var queue := FreshQueue(quotes);
    assert [] + queue == queue;
    ProcessKeepsArbitrageFree(start, queue, []);
    FilterSliceSteps(kind, quotes, smoothing);
    var (a, complement) := Process(start, queue, []).value;
    if kind == StrikeKind {
      RepricingSucceeds(quotes, smoothing);
      AdjustKeepsArbitrageFree(a, complement, smoothing);
    }
  }

  /** On distinct strikes every strike is held at most once. */
  lemma {:induction false} DistinctStrikesOnce(s: seq<Quote>, k: Strike)
    requires DistinctStrikes(s)
    ensures StrikeCount(s, k) <= 1
    decreases |s|
  {
    if s != [] {
      DistinctStrikesOnce(s[1..], k);
      if s[0].strike == k {
        StrikeCountAbsent(s[1..], k);
      }
    }
  }

  /** A strike held at two positions is counted at least twice. */
  lemma StrikeTwice(s: seq<Quote>, i: int, j: int)
    requires 0 <= i < j < |s| && s[i].strike == s[j].strike
    ensures StrikeCount(s, s[i].strike) >= 2
  {
    var k := s[i].strike;
    assert s == s[..j] + s[j..];
    StrikeCountOfConcat(s[..j], s[j..], k);
    StrikeCountRemoveAt(s[..j], i, k);
    StrikeCountRemoveAt(s[j..], 0, k);
  }

  /** A reordering of quotes at distinct strikes has distinct strikes. */
  lemma PermutationKeepsDistinctStrikes(x: seq<Quote>, y: seq<Quote>)
    requires DistinctStrikes(x) && multiset(x) == multiset(y)
    ensures DistinctStrikes(y)
  {
    forall i, j | 0 <= i < j < |y|
      ensures y[i].strike != y[j].strike
    {
      if y[i].strike == y[j].strike {
        StrikeTwice(y, i, j);
        DistinctStrikesOnce(x, y[i].strike);
        StrikeCountOfPermutation(x, y, y[i].strike);
      }
    }
  }

  // ---------------------------------------------------------------------------------------
  // The missing `add_quote`

  /** `_add_quote_if_feasible` as the source writes it: a feasible quote reaches
      `self._current_a.add_quote(q)`, a method `ArbitrageFreeSet` does not define, so it raises
      AttributeError; only an infeasible quote gets through. */
  function AddQuoteIfFeasibleAsWritten(a: seq<Quote>, q: Quote): (r: Result<bool>)
    requires Shaped(a)
    ensures r.Ok? <==> IsInteriorStrike(q.strike) && !Feasible(a, q)
    ensures r.Ok? ==> !r.value
    ensures IsInteriorStrike(q.strike) && Feasible(a, q) ==> r == Err(MissingAttribute)
  {
    if !IsInteriorStrike(q.strike) then Err(LookupFailed)
    else if Feasible(a, q) then Err(MissingAttribute)
    else Ok(false)
  }

  /** As written, the first feasible quote aborts the run: on a fresh set, a quote at strike 1
      with mid 0.5 lies between the bounds max(1 - 1, 0) = 0 and 1, yet cannot be added. */
  lemma AsWrittenRejectsFeasibleQuote()
    ensures var q := Quote(0.5, 0.5, Finite(1.0), 1.0);
            && Shaped([Quote0, QuoteInf])
            && Feasible([Quote0, QuoteInf], q)
            && AddQuoteIfFeasibleAsWritten([Quote0, QuoteInf], q) == Err(MissingAttribute)
  {
    var q := Quote(0.5, 0.5, Finite(1.0), 1.0);
    FreshSetBounds(q);
  }

  // ---------------------------------------------------------------------------------------
  // The filter, in place

  /** `StrikeFilter` (`kind == StrikeKind`) and `DiscardFilter` (`kind == DiscardKind`), which
      differ only in `adjust_remaining_quotes`. */
  class StrikeFilter {
    const kind: FilterKind
    var arbitrageFreeSets: seq<ArbitrageFreeSet>
    const quoteSurface: QuoteSurface
    var sliceIndex: Option<nat>
    var currentLiqSortedQuotes: seq<Quote>
    var currentA: ArbitrageFreeSet
    var currentAComplement: seq<Quote>
    /** One smoothing parameter per expiry; `None` stands for the NaN filled in when none is given. */
    const smoothingParams: seq<Option<real>>

    /** The state `_initialize_current_variables` leaves: a fresh set and empty work lists. */
    ghost predicate Ready()
      reads this, currentA
    {
      currentA.sortedQuotes == [Quote0, QuoteInf] && currentLiqSortedQuotes == [] && currentAComplement == []
    }

    /** The slices the filter works on. */
    ghost function Slices(): set<QuoteSlice>
      reads quoteSurface
    {
      set i | 0 <= i < |quoteSurface.slices| :: quoteSurface.slices[i]
    }

    /** The slice at `sliceIndex`, as a frame: none when the index is past the last slice. */
    ghost function CurrentSlice(): set<QuoteSlice>
      reads this, quoteSurface
    {
      if sliceIndex.Some? && sliceIndex.value < |quoteSurface.slices| then {quoteSurface.slices[sliceIndex.value]} else {}
    }

    /** The quotes of every slice, in slice order. */
    ghost function SliceQuotes(): (r: seq<seq<Quote>>)
      reads quoteSurface, Slices()
      ensures |r| == |quoteSurface.slices|
      ensures forall i :: 0 <= i < |r| ==> r[i] == quoteSurface.slices[i].quotes
    {
      seq(|quoteSurface.slices|, i requires 0 <= i < |quoteSurface.slices| reads quoteSurface, Slices() =>
        quoteSurface.slices[i].quotes)
    }

    /** `__init__`: no set yet, no slice visited, and the parameter repeated for every expiry. */
    constructor (kind: FilterKind, quoteSurface: QuoteSurface, smoothingParam: Option<real>)
      ensures this.kind == kind && this.quoteSurface == quoteSurface
      ensures arbitrageFreeSets == [] && sliceIndex == None
      ensures fresh(currentA) && Ready()
      ensures |smoothingParams| == quoteSurface.NExpiries()
      ensures forall i :: 0 <= i < |smoothingParams| ==> smoothingParams[i] == smoothingParam
    {
      this.kind := kind;
      this.quoteSurface := quoteSurface;
      arbitrageFreeSets := [];
      sliceIndex := None;
      // `_initialize_current_variables`
      currentLiqSortedQuotes := [];
      currentA := new ArbitrageFreeSet();
      currentAComplement := [];
      smoothingParams := seq(quoteSurface.NExpiries(), _ => smoothingParam);
    }

    /** `_initialize_current_variables`. */
    method InitializeCurrentVariables()
      modifies this
      ensures fresh(currentA) && Ready()
      ensures arbitrageFreeSets == old(arbitrageFreeSets) && sliceIndex == old(sliceIndex)
    {
      currentLiqSortedQuotes := [];
      currentA := new ArbitrageFreeSet();
      currentAComplement := [];
    }

    /** `advance_slice_index`: the first call selects slice 0, every later one the next slice. */
    method AdvanceSliceIndex()
      modifies this
      ensures sliceIndex == if old(sliceIndex).None? then Some(0) else Some(old(sliceIndex).value + 1)
      ensures arbitrageFreeSets == old(arbitrageFreeSets) && currentA == old(currentA)
      ensures currentLiqSortedQuotes == old(currentLiqSortedQuotes) && currentAComplement == old(currentAComplement)
    {
      if sliceIndex.None? {
        sliceIndex := Some(0);
      } else {
        sliceIndex := Some(sliceIndex.value + 1);
      }
    }

    /** `set_liquidity_sorted_quotes`: the work list IS the slice's own list, sorted in place by
        liquidity proxy, most liquid first. */
    method SetLiquiditySortedQuotes()
      requires sliceIndex.Some? && sliceIndex.value < |quoteSurface.slices|
      modifies this, quoteSurface.slices[sliceIndex.value]
      ensures sliceIndex == old(sliceIndex) && arbitrageFreeSets == old(arbitrageFreeSets)
      ensures currentLiqSortedQuotes == SortByLiquidity(old(quoteSurface.slices[sliceIndex.value].quotes))
      ensures LiquidityDescending(currentLiqSortedQuotes)
      ensures quoteSurface.slices[sliceIndex.value].quotes == currentLiqSortedQuotes
      ensures currentA == old(currentA) && currentAComplement == old(currentAComplement)
    {
      var quoteSlice := quoteSurface.slices[sliceIndex.value];
      SortByLiquidityDescending(quoteSlice.quotes);
      quoteSlice.quotes := SortByLiquidity(quoteSlice.quotes);
      currentLiqSortedQuotes := quoteSlice.quotes;
    }

    /** `_add_quote_if_feasible`, with the missing `add_quote` read as `ArbitrageFreeSet.AddQuote`:
        admits `q` exactly when it is feasible and reports whether it did. */
    method AddQuoteIfFeasible(q: Quote) returns (r: Result<bool>)
      requires currentA.Valid()
      modifies currentA
      ensures currentA.Valid()
      ensures r.Err? <==> !IsInteriorStrike(q.strike)
      ensures r.Err? ==> r.error == LookupFailed && currentA.sortedQuotes == old(currentA.sortedQuotes)
      ensures r.Ok? ==> (r.value <==> Feasible(old(currentA.sortedQuotes), q))
      ensures r == Ok(true) ==> currentA.sortedQuotes == InsortLeft(old(currentA.sortedQuotes), q, QuoteLess)
      ensures r == Ok(false) ==> currentA.sortedQuotes == old(currentA.sortedQuotes)
    {
      var lowerBound :- currentA.ComputeLowerBound(q);
      // the same lookups as for the lower bound, so they succeed too
      var upperBound := currentA.ComputeUpperBound(q).value;
      var isQuoteFeasible := lowerBound <= q.Mid() <= upperBound;
      if isQuoteFeasible {
        currentA.AddQuote(q);
      }
      r := Ok(isQuoteFeasible);
    }

    /** `perform_process_iteration`: pops the most liquid quote (from the slice's own list) and
        either admits it or queues it on the complement; one step of `Process`. */
    method PerformProcessIteration() returns (r: Result<()>)
      requires currentA.Valid() && currentLiqSortedQuotes != []
      requires sliceIndex.Some? && sliceIndex.value < |quoteSurface.slices|
      requires quoteSurface.slices[sliceIndex.value].quotes == currentLiqSortedQuotes
      modifies this, currentA, quoteSurface.slices[sliceIndex.value]
      ensures currentA == old(currentA) && currentA.Valid()
      ensures sliceIndex == old(sliceIndex) && arbitrageFreeSets == old(arbitrageFreeSets)
      ensures currentLiqSortedQuotes == old(currentLiqSortedQuotes)[1..]
      ensures quoteSurface.slices[sliceIndex.value].quotes == currentLiqSortedQuotes
      ensures r.Err? ==> Process(old(currentA.sortedQuotes), old(currentLiqSortedQuotes), old(currentAComplement)) == Err(r.error)
      ensures r.Ok? ==> Process(old(currentA.sortedQuotes), old(currentLiqSortedQuotes), old(currentAComplement)) ==
                          Process(currentA.sortedQuotes, currentLiqSortedQuotes, currentAComplement)
    {
      ghost var a, queue, complement := currentA.sortedQuotes, currentLiqSortedQuotes, currentAComplement;
      var q := currentLiqSortedQuotes[0];
      currentLiqSortedQuotes := currentLiqSortedQuotes[1..];
      quoteSurface.slices[sliceIndex.value].quotes := currentLiqSortedQuotes;
      var added := AddQuoteIfFeasible(q);
      if added.Err? {
        ProcessStep(a, queue, complement);
        return Err(added.error);
      }
      if !added.value {
        currentAComplement := currentAComplement + [q];
      }
      ProcessIterationOutcome(a, queue, complement, added.value, currentA.sortedQuotes, currentAComplement);
      r := Ok(());
    }

    /** `process_quote_slice`: one iteration per queued quote; runs `Process` on the live set. */
    method ProcessQuoteSlice() returns (r: Result<()>)
      requires currentA.Valid()
      requires sliceIndex.Some? && sliceIndex.value < |quoteSurface.slices|
      requires quoteSurface.slices[sliceIndex.value].quotes == currentLiqSortedQuotes
      modifies this, currentA, quoteSurface.slices[sliceIndex.value]
      ensures currentA == old(currentA) && currentA.Valid()
      ensures sliceIndex == old(sliceIndex) && arbitrageFreeSets == old(arbitrageFreeSets)
      ensures var p := Process(old(currentA.sortedQuotes), old(currentLiqSortedQuotes), old(currentAComplement));
              && (r.Ok? <==> p.Ok?)
              && (r.Err? ==> r.error == p.error)
              && (r.Ok? ==> currentA.sortedQuotes == p.value.0 && currentAComplement == p.value.1 && currentLiqSortedQuotes == [])
    {
      var n := |currentLiqSortedQuotes|;
      ghost var p := Process(currentA.sortedQuotes, currentLiqSortedQuotes, currentAComplement);
      for i := 0 to n
        invariant currentA == old(currentA) && currentA.Valid()
        invariant sliceIndex == old(sliceIndex) && arbitrageFreeSets == old(arbitrageFreeSets)
        invariant |currentLiqSortedQuotes| == n - i
        invariant quoteSurface.slices[sliceIndex.value].quotes == currentLiqSortedQuotes
        invariant Process(currentA.sortedQuotes, currentLiqSortedQuotes, currentAComplement) == p
      {
        r := PerformProcessIteration();
        if r.Err? {
          return;
        }
      }
      r := Ok(());
    }

    /** `perform_adjust_iteration`: pops the oldest queued quote, moves its price into the live
        bounds and admits it; one step of `Adjust`. */
    method PerformAdjustIteration(smoothing: real) returns (r: Result<()>)
      requires currentA.Valid() && currentAComplement != []
      modifies this, currentA
      ensures currentA == old(currentA) && currentA.Valid()
      ensures sliceIndex == old(sliceIndex) && arbitrageFreeSets == old(arbitrageFreeSets)
      ensures currentLiqSortedQuotes == old(currentLiqSortedQuotes)
      ensures currentAComplement == old(currentAComplement)[1..]
      ensures r.Err? ==> Adjust(old(currentA.sortedQuotes), old(currentAComplement), smoothing) == Err(r.error)
      ensures r.Ok? ==> Adjust(old(currentA.sortedQuotes), old(currentAComplement), smoothing) ==
                          Adjust(currentA.sortedQuotes, currentAComplement, smoothing)
    {
      ghost var a := currentA.sortedQuotes;
      ghost var complement := currentAComplement;
      var q := currentAComplement[0];
      currentAComplement := currentAComplement[1..];
      var lowerBound :- currentA.ComputeLowerBound(q);
      var upperBound := currentA.ComputeUpperBound(q).value;
      assert lowerBound == LowerBound(a, q) && upperBound == UpperBound(a, q);
      var adjustedPrice: real;
      if q.Mid() < lowerBound {
        adjustedPrice := Blend(lowerBound, upperBound, smoothing);
        assert AdjustedPrice(q.Mid(), lowerBound, upperBound, smoothing) == Ok(adjustedPrice);
      } else if q.Mid() > upperBound {
        adjustedPrice := Blend(lowerBound, upperBound, 1.0 - smoothing);
        assert AdjustedPrice(q.Mid(), lowerBound, upperBound, smoothing) == Ok(adjustedPrice);
      } else {
        AdjustStep(a, complement, smoothing, Err(QuoteAlreadyFeasible));
        return Err(QuoteAlreadyFeasible);
      }
      AdjustStep(a, complement, smoothing, Ok(adjustedPrice));
      var adjusted := q.SetPrice(adjustedPrice, MidSide);
      currentA.AddQuote(adjusted);
      r := Ok(());
    }

    /** `adjust_remaining_quotes`: for the repricing filter one iteration per queued quote, which
        runs `Adjust` on the live set; for the discarding filter nothing. */
    method AdjustRemainingQuotes(smoothing: real) returns (r: Result<()>)
      requires currentA.Valid()
      modifies this, currentA
      ensures currentA == old(currentA) && currentA.Valid()
      ensures sliceIndex == old(sliceIndex) && arbitrageFreeSets == old(arbitrageFreeSets)
      ensures currentLiqSortedQuotes == old(currentLiqSortedQuotes)
      ensures kind == DiscardKind ==>
                r.Ok? && currentA.sortedQuotes == old(currentA.sortedQuotes) && currentAComplement == old(currentAComplement)
      ensures kind == StrikeKind ==>
                var p := Adjust(old(currentA.sortedQuotes), old(currentAComplement), smoothing);
                && (r.Ok? <==> p.Ok?)
                && (r.Err? ==> r.error == p.error)
                && (r.Ok? ==> currentA.sortedQuotes == p.value && currentAComplement == [])
    {
      if kind == DiscardKind {
        return Ok(());
      }
      var n := |currentAComplement|;
      ghost var p := Adjust(currentA.sortedQuotes, currentAComplement, smoothing);
      for i := 0 to n
        invariant currentA == old(currentA) && currentA.Valid()
        invariant sliceIndex == old(sliceIndex) && arbitrageFreeSets == old(arbitrageFreeSets)
        invariant currentLiqSortedQuotes == old(currentLiqSortedQuotes)
        invariant |currentAComplement| == n - i
        invariant Adjust(currentA.sortedQuotes, currentAComplement, smoothing) == p
      {
        r := PerformAdjustIteration(smoothing);
        if r.Err? {
          return;
        }
      }
      r := Ok(());
    }

    /** No repricing filter runs with the NaN smoothing parameter of a missing λ. */
    predicate SmoothingGiven() {
      kind == StrikeKind ==> forall i :: 0 <= i < |smoothingParams| ==> smoothingParams[i].Some?
    }

    /** `filter_quote_slice`: runs the slice at `sliceIndex` through `FilterSlice`, replaces its
        quotes by the interior of the resulting set, records that set and starts a fresh one.
        A slice position past the end raises IndexError. */
    method FilterQuoteSlice() returns (r: Result<()>)
      requires sliceIndex.Some? && Ready() && SmoothingGiven()
      requires |smoothingParams| == |quoteSurface.slices|
      modifies this, currentA, CurrentSlice()
      ensures sliceIndex == old(sliceIndex)
      ensures sliceIndex.value >= |quoteSurface.slices| ==> r == Err(IndexOutOfRange)
      ensures sliceIndex.value < |quoteSurface.slices| ==>
                var f := FilterSlice(kind, old(quoteSurface.slices[sliceIndex.value].quotes), Smoothing(smoothingParams[sliceIndex.value]));
                && (r.Ok? <==> f.Ok?)
                && (r.Err? ==> r.error == f.error)
                && (r.Ok? ==> quoteSurface.slices[sliceIndex.value].quotes == InteriorQuotes(f.value)
                              && old(currentA).sortedQuotes == f.value)
      ensures r.Ok? ==> arbitrageFreeSets == old(arbitrageFreeSets) + [old(currentA)] && fresh(currentA) && Ready()
      ensures r.Err? ==> arbitrageFreeSets == old(arbitrageFreeSets)
    {
      var idx := sliceIndex.value;
      if idx >= |quoteSurface.slices| {
        return Err(IndexOutOfRange);
      }
      ghost var quotes := quoteSurface.slices[idx].quotes;
      FilterSliceSteps(kind, quotes, Smoothing(smoothingParams[idx]));
      SetLiquiditySortedQuotes();
      r := ProcessQuoteSlice();
      if r.Err? {
        return;
      }
      var smoothingParam := Smoothing(smoothingParams[idx]);
      r := AdjustRemainingQuotes(smoothingParam);
      if r.Err? {
        return;
      }
      var quoteSlice := quoteSurface.slices[idx];
      quoteSlice.quotes := currentA.GetArbitrageFreeQuotes(true);
      arbitrageFreeSets := arbitrageFreeSets + [currentA];
      InitializeCurrentVariables();
    }

    /** One pass of `filter`'s loop: `advance_slice_index`, then `filter_quote_slice` on the
        slice it points to; every other slice keeps its quotes. */
    method FilterNextSlice() returns (r: Result<()>)
      requires Ready() && SmoothingGiven()
      requires |smoothingParams| == |quoteSurface.slices|
      requires forall i, j :: 0 <= i < j < |quoteSurface.slices| ==> quoteSurface.slices[i] != quoteSurface.slices[j]
      modifies this, currentA, quoteSurface.slices
      ensures sliceIndex == if old(sliceIndex).None? then Some(0) else Some(old(sliceIndex).value + 1)
      ensures sliceIndex.value >= |quoteSurface.slices| ==> r == Err(IndexOutOfRange)
      ensures var idx := sliceIndex.value;
              idx < |quoteSurface.slices| ==>
                var f := FilterSlice(kind, old(quoteSurface.slices[idx].quotes), Smoothing(smoothingParams[idx]));
                && (r.Ok? <==> f.Ok?)
                && (r.Err? ==> r.error == f.error)
                && (r.Ok? ==> quoteSurface.slices[idx].quotes == InteriorQuotes(f.value)
                              && old(currentA).sortedQuotes == f.value)
      ensures r.Ok? ==> arbitrageFreeSets == old(arbitrageFreeSets) + [old(currentA)] && fresh(currentA) && Ready()
      ensures r.Err? ==> arbitrageFreeSets == old(arbitrageFreeSets)
      ensures forall k :: 0 <= k < |quoteSurface.slices| && k != sliceIndex.value ==>
                quoteSurface.slices[k].quotes == old(quoteSurface.slices[k].quotes)
    {
      AdvanceSliceIndex();
      assert sliceIndex.value < |quoteSurface.slices| ==> quoteSurface.slices[sliceIndex.value] in quoteSurface.slices;
      r := FilterQuoteSlice();
    }

    /** `filter`: one `advance_slice_index` and `filter_quote_slice` per slice, in slice order.
        From the constructor's state every slice ends up holding the interior of its own
        `FilterSlice` run, whose set is recorded in slice order. The model admits only a filter
        fresh from its constructor (no slice index yet). */
    method Filter() returns (r: Result<()>)
      requires Ready() && SmoothingGiven() && sliceIndex.None?
      requires |smoothingParams| == |quoteSurface.slices|
      requires forall i, j :: 0 <= i < j < |quoteSurface.slices| ==> quoteSurface.slices[i] != quoteSurface.slices[j]
      modifies this, currentA, quoteSurface.slices
      ensures |old(arbitrageFreeSets)| <= |arbitrageFreeSets| <= |old(arbitrageFreeSets)| + |quoteSurface.slices|
      ensures arbitrageFreeSets[..|old(arbitrageFreeSets)|] == old(arbitrageFreeSets)
      ensures r.Ok? ==> |arbitrageFreeSets| == |old(arbitrageFreeSets)| + |quoteSurface.slices| && Ready()
      ensures r.Ok? <==> forall i :: 0 <= i < |quoteSurface.slices| ==>
                           FilterSlice(kind, old(quoteSurface.slices[i].quotes), Smoothing(smoothingParams[i])).Ok?
      ensures forall i :: 0 <= i < |arbitrageFreeSets| - |old(arbitrageFreeSets)| ==>
                var f := arbitrageFreeSets[|old(arbitrageFreeSets)| + i].sortedQuotes;
                && FilterSlice(kind, old(quoteSurface.slices[i].quotes), Smoothing(smoothingParams[i])) == Ok(f)
                && quoteSurface.slices[i].quotes == InteriorQuotes(f)
    {
      var n := quoteSurface.NExpiries();
      assert n == |quoteSurface.slices|;
      ghost var original := SliceQuotes();
      ghost var before := |arbitrageFreeSets|;
      for i := 0 to n
        invariant Ready() && |arbitrageFreeSets| == before + i
        invariant arbitrageFreeSets[..before] == old(arbitrageFreeSets)
        invariant currentA == old(currentA) || fresh(currentA)
        invariant forall k :: before <= k < |arbitrageFreeSets| ==> arbitrageFreeSets[k] != currentA
        invariant sliceIndex == if i == 0 then None else Some(i - 1)
        invariant forall k :: i <= k < n ==> quoteSurface.slices[k].quotes == original[k]
        invariant forall k :: 0 <= k < i ==>
                    var f := arbitrageFreeSets[before + k].sortedQuotes;
                    FilterSlice(kind, original[k], Smoothing(smoothingParams[k])) == Ok(f) && quoteSurface.slices[k].quotes == InteriorQuotes(f)
      {
        r := FilterNextSlice();
        if r.Err? {
          assert !FilterSlice(kind, original[i], Smoothing(smoothingParams[i])).Ok?;
          return;
        }
      }
      r := Ok(());
    }
  }
}
