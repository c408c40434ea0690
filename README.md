# Static-arbitrage filtering of option quotes, in Dafny

This project models the core of a quote processor for European call options. For each expiry
it keeps, or reprices, only the quotes consistent with a call price that is convex and
non-increasing in strike, and in the calendar variant also consistent with the slices of
earlier expiries. The repository carries the filter twice, and both are modelled.

**Current lineage** (`python/qproc/internal`):

- `ArbitrageFreeSets` (arbitrage_free_set.py): the arbitrage-free set. It holds normalized call
  quotes sorted by strike between a synthetic quote at strike 0 (price 1) and one at strike
  +infinity (price 0). It computes the lower bound from secant extensions and the upper bound
  from the chord between neighbours, and admits a quote exactly when its mid lies between them.
  Admission is proved to keep the set convex, non-increasing and within [0, 1].
- `ArbitrageFilters` (arbitrage_filter.py): the repricing filter and the discarding filter.
  Per expiry, quotes are ranked by liquidity proxy. Feasible ones are admitted greedily and the
  others queued. The repricing filter then moves each queued quote into the live bounds using
  the smoothing parameter λ; the discarding filter drops them. A slice's run is specified on
  values. The `StrikeFilter` class runs it on the surface in place and is proved against that
  specification.
- `QuoteStructures` (quote_structures.py): quotes, slices kept sorted by strike, and surfaces
  kept sorted by expiry.
- `QuoteSurfaceConstruction` (quote_surface_construction.py): grouping input rows into slices.
- `QuoteTransformation` (quote_transformation.py): strike and price unit conversions.
- `OptionQuoteProcessing` (option_quote_processor.py): filtering the held surface and answering
  lower and upper price bounds at any strike of a quoted expiry.
- `LiquidityProxies` (liquidity_proxy_computation.py): the default proxy 1/(1+|K−F|).
- `FunctionalInterpolation` (python/volsurface/internal/functional_interpolator.py) and
  `Interpolation` (python/numcomp/interpolation.py): bracketing, weights and extrapolation
  masks.

**Original lineage** (`python/filter_implementation` and
`Arbitrage_Based_Filtering_of_Option_Price_Data/filter_implementation`), in discounted call
premiums:

- `FilterQuote` (quote.py): the quote and its adjustment record.
- `FilterSliceBounds` (quote_slice.py): the strike bounds, with a left default slope of −DF and
  no +infinity quote.
- `FilterFills`: the initial set and the two fill passes, shared by the strike filter and the
  calendar filter.
- `FilterSafeguard`: the percentage of adjusted quotes, the best-of-attempts loop over shuffled
  pending lists, and the final safeguard.
- `FilterQuoteSlice`: the `QuoteSlice` class, whose methods are the source's loops, proved to
  leave the slice in the state the `FilterFills` and `FilterSafeguard` functions describe.
- `FilterForwardBounds` and `FilterForwardFilter` (quote_surface.py): the calendar filter. It
  scales earlier lower bounds by DF₂F₂/(DF₁F₁), and runs a bounded bump-and-retry loop with a
  strike-only fallback.

Supporting modules:

- `Sorting`: `bisect` and the `find_lt`/`find_gt`/`find_le`/`index` lookups, specified by use.
- `Arithmetic`: real-arithmetic facts used by the bound proofs.
- `Common`: `Option`, `Result`, and one `Error` case per exception the source raises.

Prices and strikes are `real`. The strike +infinity is a datatype case. Each exception is an
`Err` value. Market data the source obtains from other objects are parameters: forwards,
discount factors, Black's formula, the implied-volatility solver and the random shuffles.

## Model

| member | source | states |
|---|---|---|
| ArbitrageFreeSets.LeftAdjacent | python/qproc/internal/arbitrage_filter/arbitrage_free_set.py:48-49 | `find_lt`: the position of the nearest quote strictly left of the strike, which is finite and has no held strike between it and the quote |
| ArbitrageFreeSets.RightAdjacent | python/qproc/internal/arbitrage_filter/arbitrage_free_set.py:64-65 | `find_gt`: the first position whose strike lies strictly right of the quote |
| ArbitrageFreeSets.LeftCandidate | python/qproc/internal/arbitrage_filter/arbitrage_free_set.py:38-39 | the left secant extension floored at 0 is never negative |
| ArbitrageFreeSets.LowerBound | python/qproc/internal/arbitrage_filter/arbitrage_free_set.py:35-46 | the lower bound dominates both candidates and is never negative |
| ArbitrageFreeSets.FreshSetIsArbitrageFree | python/qproc/internal/arbitrage_filter/arbitrage_free_set.py:11-17 | the two synthetic quotes (price 1 at strike 0, price 0 at +inf) form an arbitrage-free set |
| ArbitrageFreeSets.FreshSetBounds | python/qproc/internal/arbitrage_filter/arbitrage_free_set.py:35-46 | on the fresh set every interior strike k has lower bound max(1 - k, 0) and upper bound 1 |
| ArbitrageFreeSets.GapOfNewStrike | python/qproc/internal/arbitrage_filter/arbitrage_free_set.py:64-65 | a strike not yet held falls between its `find_gt` neighbour and the quote before it |
| ArbitrageFreeSets.GapNeighbours | python/qproc/internal/arbitrage_filter/arbitrage_free_set.py:31 | in a gap, `find_lt`, `find_gt` and the `insort_left` position agree with the gap's ends |
| ArbitrageFreeSets.HeldNeighbours | python/qproc/internal/arbitrage_filter/arbitrage_free_set.py:53-54 | the neighbours of a held interior quote are the quotes beside it, as the second `find_lt`/`find_gt` lookups use |
| ArbitrageFreeSets.DifferenceQuotientsAreSlopes | python/qproc/internal/arbitrage_filter/arbitrage_free_set.py:51-79 | the left and right difference quotients are the slopes of the segments next to the gap (-1 and 0 being the defaults) |
| ArbitrageFreeSets.LeftDifferenceQuotientIsSlope | python/qproc/internal/arbitrage_filter/arbitrage_free_set.py:51-62 | the left difference quotient is the slope of the segment left of the gap, or -1 with only strike 0 to the left |
| ArbitrageFreeSets.RightDifferenceQuotientIsSlope | python/qproc/internal/arbitrage_filter/arbitrage_free_set.py:67-79 | the right difference quotient is the slope of the segment right of the gap |
| ArbitrageFreeSets.SlopeStep | python/qproc/internal/arbitrage_filter/arbitrage_free_set.py:56-57 | across a finite segment the next mid is the previous one moved along the secant |
| ArbitrageFreeSets.MidsNonIncreasing | python/qproc/internal/arbitrage_filter/arbitrage_free_set.py:26-31 | in an arbitrage-free set the admitted mids do not increase with strike |
| ArbitrageFreeSets.MidsAboveIntrinsic | python/qproc/internal/arbitrage_filter/arbitrage_free_set.py:26-31 | in an arbitrage-free set every mid is at least the intrinsic value 1 - k |
| ArbitrageFreeSets.AdmittedMidsInRange | python/qproc/internal/arbitrage_filter/arbitrage_free_set.py:26-31 | every admitted mid lies in [max(1 - k, 0), 1] |
| ArbitrageFreeSets.LeftCandidateFromSlope | python/qproc/internal/arbitrage_filter/arbitrage_free_set.py:38-39 | the left candidate extends the left neighbour along the slope left of it |
| ArbitrageFreeSets.RightCandidateExists | python/qproc/internal/arbitrage_filter/arbitrage_free_set.py:43-44 | the right candidate exists exactly when the right neighbour is finite (the +inf neighbour gives NaN, which `max` drops) |
| ArbitrageFreeSets.RightCandidateFromSlope | python/qproc/internal/arbitrage_filter/arbitrage_free_set.py:43-44 | the right candidate extends the right neighbour back along the slope right of it |
| ArbitrageFreeSets.UpperBoundFromNeighbours | python/qproc/internal/arbitrage_filter/arbitrage_free_set.py:81-96 | the upper bound is the chord between the neighbours, or the left mid when the right neighbour is +inf |
| ArbitrageFreeSets.BoundsOrdered | python/qproc/internal/arbitrage_filter/arbitrage_free_set.py:35-96 | on an arbitrage-free set the lower bound never exceeds the upper bound at a new strike |
| ArbitrageFreeSets.BoundsOrderedAtGap | python/qproc/internal/arbitrage_filter/arbitrage_free_set.py:35-96 | the bounds are ordered whenever the slopes around the gap are ordered and the neighbouring mids are non-negative |
| ArbitrageFreeSets.LowerBoundAtMost | python/qproc/internal/arbitrage_filter/arbitrage_free_set.py:46 | the maximum of the two candidates is below any common upper value |
| ArbitrageFreeSets.LowerBoundIffSlopes | python/qproc/internal/arbitrage_filter/arbitrage_free_set.py:35-46 | mid >= lower bound exactly when the mid is non-negative and the new segments' slopes fit the slopes outside the gap |
| ArbitrageFreeSets.UpperBoundIffSlopes | python/qproc/internal/arbitrage_filter/arbitrage_free_set.py:81-92 | mid <= upper bound exactly when the new left slope is at most the new right slope |
| ArbitrageFreeSets.FeasibleIffFitsGap | python/qproc/internal/arbitrage_filter/arbitrage_free_set.py:29 | feasibility is exactly the slope conditions of the gap |
| ArbitrageFreeSets.InsertedShape | python/qproc/internal/arbitrage_filter/arbitrage_free_set.py:31 | `insort_left` at a new strike puts the quote in its gap and keeps the list strictly sorted with the synthetic quotes at the ends |
| ArbitrageFreeSets.InsertedSlopesMonotone | python/qproc/internal/arbitrage_filter/arbitrage_free_set.py:31 | inserting a quote that fits its gap keeps the slopes non-decreasing |
| ArbitrageFreeSets.InsertedFitsGap | python/qproc/internal/arbitrage_filter/arbitrage_free_set.py:29-31 | a quote whose insertion leaves the set arbitrage-free fits its gap |
| ArbitrageFreeSets.FeasibleIffInsertionArbitrageFree | python/qproc/internal/arbitrage_filter/arbitrage_free_set.py:26-33 | a quote at a new strike is feasible if and only if inserting it keeps the set free of arbitrage (convex, non-increasing, non-negative) |
| ArbitrageFreeSets.RemovedShape | python/qproc/internal/arbitrage_filter/arbitrage_free_set.py:31 | leaving out an interior quote keeps the synthetic quotes at the ends and the strict strike order |
| ArbitrageFreeSets.RemovedSlope | python/qproc/internal/arbitrage_filter/arbitrage_free_set.py:31 | after leaving out s[i], slopes left of the gap are the old ones and slopes right of it are the old ones one place on |
| ArbitrageFreeSets.MergedSlope | python/qproc/internal/arbitrage_filter/arbitrage_free_set.py:31 | the secant that replaces the two segments around a removed quote has a slope between theirs |
| ArbitrageFreeSets.MergedQuotient | python/qproc/internal/arbitrage_filter/arbitrage_free_set.py:56-57 | for three quotes in strike order with rising difference quotients, the outer quotient lies between the inner two |
| ArbitrageFreeSets.RemoveKeepsArbitrageFree | python/qproc/internal/arbitrage_filter/arbitrage_free_set.py:31 | removing an interior quote from an arbitrage-free set leaves it arbitrage-free |
| ArbitrageFreeSets.StrictlySortedUnique | python/qproc/internal/arbitrage_filter/arbitrage_free_set.py:31 | two strictly sorted lists holding the same quotes are equal, so `insort_left` order does not depend on insertion order |
| ArbitrageFreeSets.FirstOfStrictlySorted | python/qproc/internal/arbitrage_filter/arbitrage_free_set.py:31 | two strictly sorted lists holding the same quotes start with the same quote |
| ArbitrageFreeSets.PositionOfAdmitted | python/qproc/internal/arbitrage_filter/arbitrage_free_set.py:31 | an interior quote held by a shaped set sits strictly between the synthetic quotes |
| ArbitrageFreeSets.RemoveAdmitted | python/qproc/internal/arbitrage_filter/arbitrage_free_set.py:31 | an admitted interior quote can be taken out of an arbitrage-free set, leaving an arbitrage-free set of the other quotes |
| ArbitrageFreeSets.MultisetWithout | python/qproc/internal/arbitrage_filter/arbitrage_free_set.py:31 | leaving out one entry takes exactly that quote out of the multiset |
| ArbitrageFreeSets.WithoutAdmittedQuote | python/qproc/internal/arbitrage_filter/arbitrage_free_set.py:26-33 | if adding p and then q keeps the set arbitrage-free, adding q alone does too |
| ArbitrageFreeSets.DropAdmitted | python/qproc/internal/arbitrage_filter/arbitrage_free_set.py:31 | a strictly sorted list holding an arbitrage-free set's quotes less one admitted quote is arbitrage-free |
| ArbitrageFreeSets.ArbitrageFreeOfSameQuotes | python/qproc/internal/arbitrage_filter/arbitrage_free_set.py:31 | arbitrage-freedom depends only on which quotes a strictly sorted list holds |
| ArbitrageFreeSets.InsortOfNewStrike | python/qproc/internal/arbitrage_filter/arbitrage_free_set.py:31 | `insort_left` at a strike not yet held keeps the list strictly sorted |
| ArbitrageFreeSets.InfeasibleAfterAdmission | python/qproc/internal/arbitrage_filter/arbitrage_free_set.py:26-33 | a quote rejected by an arbitrage-free set stays rejected after another feasible quote is admitted |
| ArbitrageFreeSets.InsortKeepsShape | python/qproc/internal/arbitrage_filter/arbitrage_free_set.py:31 | inserting at any interior strike keeps the synthetic quotes first and last |
| ArbitrageFreeSets.BoundsDependOnStrikeOnly | python/qproc/internal/arbitrage_filter/arbitrage_free_set.py:35-96 | the bounds depend on the quote's strike alone |
| ArbitrageFreeSets.HasStrikeAfterInsort | python/qproc/internal/arbitrage_filter/arbitrage_free_set.py:31 | after an insertion the strikes held are the old ones plus the new one |
| ArbitrageFreeSets.StrikeCountAfterInsort | python/qproc/internal/arbitrage_filter/arbitrage_free_set.py:31 | an insertion counts the new strike once more and no other strike changes |
| ArbitrageFreeSets.ArbitrageFreeSet.constructor | python/qproc/internal/arbitrage_filter/arbitrage_free_set.py:16-17 | a fresh set holds exactly the two synthetic quotes and is free of arbitrage |
| ArbitrageFreeSets.ArbitrageFreeSet.GetArbitrageFreeQuotes | python/qproc/internal/arbitrage_filter/arbitrage_free_set.py:19-24 | with the flag, the synthetic quotes wrapped around the result give back the whole list (`[1:-1]`), so a fresh set gives []; without it, the whole list |
| ArbitrageFreeSets.ArbitrageFreeSet.ComputeLowerBound | python/qproc/internal/arbitrage_filter/arbitrage_free_set.py:35-46 | fails (ValueError of the lookups) exactly at a non-interior strike; otherwise the non-negative lower bound |
| ArbitrageFreeSets.ArbitrageFreeSet.ComputeUpperBound | python/qproc/internal/arbitrage_filter/arbitrage_free_set.py:81-96 | fails exactly at a non-interior strike; otherwise the upper bound |
| ArbitrageFreeSets.ArbitrageFreeSet.AddQuoteIfFeasible | python/qproc/internal/arbitrage_filter/arbitrage_free_set.py:26-33 | returns true iff lower <= mid <= upper; inserts with `insort_left` exactly then, leaves the set unchanged otherwise, and keeps an arbitrage-free set arbitrage-free |
| ArbitrageFreeSets.ArbitrageFreeSet.AddQuote | python/qproc/internal/arbitrage_filter/arbitrage_free_set.py:31 | unconditional `insort_left`; a feasible quote at a new strike keeps the set arbitrage-free |
| ArbitrageFreeSets.NeighboursDependOnStrikeOnly | python/qproc/internal/arbitrage_filter/arbitrage_free_set.py:48-65 | the `find_lt`/`find_gt` lookups compare strikes only, so quotes at one strike have the same neighbours |
| ArbitrageFreeSets.InsertedSlope | python/qproc/internal/arbitrage_filter/arbitrage_free_set.py:31 | after `insort_left` the slopes left and right of the gap are the new quote's, every other slope is the old set's |
| ArbitrageFilters.LiquidityDescending | python/qproc/internal/arbitrage_filter/arbitrage_filter.py:61 | liquidity proxies do not increase along a list, the order `sort(reverse=True)` leaves |
| ArbitrageFilters.InsertByLiquidity | python/qproc/internal/arbitrage_filter/arbitrage_filter.py:61 | one insertion step of the stable descending sort: the quote goes behind the strictly more liquid quotes and before the rest |
| ArbitrageFilters.InsertByLiquidityDescending | python/qproc/internal/arbitrage_filter/arbitrage_filter.py:61 | an insertion into a list sorted by descending liquidity keeps it sorted |
| ArbitrageFilters.SortByLiquidity | python/qproc/internal/arbitrage_filter/arbitrage_filter.py:58-61 | the ranking has the slice's length and is sorted by descending liquidity proxy |
| ArbitrageFilters.InsertByLiquidityPermutes | python/qproc/internal/arbitrage_filter/arbitrage_filter.py:61 | an insertion adds exactly the one quote to the multiset |
| ArbitrageFilters.SortByLiquidityPermutes | python/qproc/internal/arbitrage_filter/arbitrage_filter.py:61 | the ranking is a permutation of the slice's quotes |
| ArbitrageFilters.SortByLiquidityDescending | python/qproc/internal/arbitrage_filter/arbitrage_filter.py:61 | the ranking puts the most liquid quotes first |
| ArbitrageFilters.InsertByLiquidityStable | python/qproc/internal/arbitrage_filter/arbitrage_filter.py:61 | an insertion puts the quote ahead of every listed quote with the same liquidity proxy and keeps their order |
| ArbitrageFilters.SortByLiquidityStable | python/qproc/internal/arbitrage_filter/arbitrage_filter.py:58-61 | the ranking is stable: for every proxy value, the quotes with that proxy appear in their original order |
| ArbitrageFilters.EmptyIsSubsequence | python/qproc/internal/arbitrage_filter/arbitrage_filter.py:33 | the complement starts as a subsequence of the queue |
| ArbitrageFilters.ProcessShape | python/qproc/internal/arbitrage_filter/arbitrage_filter.py:66-74 | processing keeps the synthetic quotes at the ends of a strictly sorted set |
| ArbitrageFilters.ProcessFails | python/qproc/internal/arbitrage_filter/arbitrage_filter.py:66-74 | processing fails exactly when some queued strike is not interior (the bounds' ValueError) |
| ArbitrageFilters.ProcessAccounting | python/qproc/internal/arbitrage_filter/arbitrage_filter.py:71-74 | every queued quote ends in the set or in the complement; nothing is lost or made up |
| ArbitrageFilters.ProcessComplementOrder | python/qproc/internal/arbitrage_filter/arbitrage_filter.py:74 | the complement grows only at its end, by queued quotes in their order of arrival |
| ArbitrageFilters.ComplementStep | python/qproc/internal/arbitrage_filter/arbitrage_filter.py:74 | appending the head of the queue to the complement keeps it a subsequence of what was queued |
| ArbitrageFilters.SubsequenceOfTail | python/qproc/internal/arbitrage_filter/arbitrage_filter.py:72 | a subsequence of the queue's tail is a subsequence of the queue |
| ArbitrageFilters.SubsequenceDropsHead | python/qproc/internal/arbitrage_filter/arbitrage_filter.py:72 | dropping the head of a subsequence keeps a subsequence |
| ArbitrageFilters.ProcessKeepsArbitrageFree | python/qproc/internal/arbitrage_filter/arbitrage_filter.py:71-85 | admitting only feasible quotes at new strikes keeps the set arbitrage-free, and the complement's strikes stay new to it |
| ArbitrageFilters.AdmittedStrikeLeavesQueue | python/qproc/internal/arbitrage_filter/arbitrage_filter.py:72-74 | after the head is admitted the strikes still queued or in the complement stay distinct and new to the set |
| ArbitrageFilters.AdjustedPriceInBounds | python/qproc/internal/arbitrage_filter/arbitrage_filter.py:103-108 | with 0 <= λ <= 1 and ordered bounds the repriced mid lies within the bounds; the rule fails exactly on a mid already within them |
| ArbitrageFilters.AdjustShape | python/qproc/internal/arbitrage_filter/arbitrage_filter.py:93-111 | repricing keeps the shape of the set |
| ArbitrageFilters.AdjustStrikes | python/qproc/internal/arbitrage_filter/arbitrage_filter.py:98-111 | repricing adds one quote per complement entry, at that entry's strike |
| ArbitrageFilters.AdjustKeepsArbitrageFree | python/qproc/internal/arbitrage_filter/arbitrage_filter.py:98-111 | with 0 <= λ <= 1, repricing quotes at new, distinct strikes keeps the set arbitrage-free |
| ArbitrageFilters.ProcessStep | python/qproc/internal/arbitrage_filter/arbitrage_filter.py:71-74 | one step of processing: a non-interior strike ends the run, otherwise the head is admitted when feasible and queued when not |
| ArbitrageFilters.ProcessIterationOutcome | python/qproc/internal/arbitrage_filter/arbitrage_filter.py:71-85 | the set and complement one iteration leaves, given the outcome of the feasibility test |
| ArbitrageFilters.ProcessBranches | python/qproc/internal/arbitrage_filter/arbitrage_filter.py:71-85 | one iteration either admits the head into the set or appends it to the complement |
| ArbitrageFilters.AdjustStep | python/qproc/internal/arbitrage_filter/arbitrage_filter.py:98-111 | one step of repricing: the head of the complement is repriced and inserted, a failed repricing ends the run |
| ArbitrageFilters.AdjustBranches | python/qproc/internal/arbitrage_filter/arbitrage_filter.py:98-111 | the same step without naming the bounds |
| ArbitrageFilters.FilterSliceSteps | python/qproc/internal/arbitrage_filter/arbitrage_filter.py:46-56 | a slice's run is processing followed (repricing filter only) by adjustment |
| ArbitrageFilters.FilterSliceShape | python/qproc/internal/arbitrage_filter/arbitrage_filter.py:46-56 | a slice's run leaves a set of the shape an arbitrage-free set keeps |
| ArbitrageFilters.ProcessFromFreshSet | python/qproc/internal/arbitrage_filter/arbitrage_filter.py:66-74 | after processing from a fresh set, the set's interior and the complement hold exactly the slice's quotes |
| ArbitrageFilters.InteriorAccounting | python/qproc/internal/arbitrage_filter/arbitrage_filter.py:53 | with the synthetic quotes at the ends, the set's interior and the complement hold the slice's quotes |
| ArbitrageFilters.Cancel | python/qproc/internal/arbitrage_filter/arbitrage_filter.py:53 | removing the synthetic quotes from both sides of the accounting leaves the slice's quotes |
| ArbitrageFilters.RepricingKeepsEveryStrike | python/qproc/internal/arbitrage_filter/arbitrage_filter.py:93-111 | whenever the repricing filter succeeds (always, on distinct interior strikes and 0 <= λ <= 1, by RepricingSucceeds) it leaves one quote per slice quote, at that quote's strike |
| ArbitrageFilters.AdjustKeepsEveryStrike | python/qproc/internal/arbitrage_filter/arbitrage_filter.py:93-111 | repricing a complement that, with the set's interior, holds the slice's quotes leaves one quote per slice quote |
| ArbitrageFilters.AdjustKeepsStrikeCount | python/qproc/internal/arbitrage_filter/arbitrage_filter.py:93-111 | the same, counted for one strike |
| ArbitrageFilters.StrikeCountsMatch | python/qproc/internal/arbitrage_filter/arbitrage_filter.py:93-111 | the count of each strike left after repricing is its count in the slice |
| ArbitrageFilters.StrikeCountOfSplit | python/qproc/internal/arbitrage_filter/arbitrage_filter.py:71-74 | two lists that together hold the slice's quotes hold each of its strikes as often |
| ArbitrageFilters.InteriorStrikeCount | python/qproc/internal/arbitrage_filter/arbitrage_filter.py:53 | on a shaped set the count of a strike is its interior count plus one each for 0 and +inf |
| ArbitrageFilters.DiscardingKeepsSubset | python/qproc/internal/arbitrage_filter/arbitrage_filter.py:114-122 | the discarding filter keeps a sub-multiset of the slice's quotes, unchanged |
| ArbitrageFilters.SubmultisetInterior | python/qproc/internal/arbitrage_filter/arbitrage_filter.py:71-74 | quotes taken from a list of interior strikes have interior strikes |
| ArbitrageFilters.FilterSliceFailsOnStrike | python/qproc/internal/arbitrage_filter/arbitrage_filter.py:46-56 | a run fails on a non-interior strike with ValueError; the discarding filter fails on nothing else |
| ArbitrageFilters.RepricingFailsOnlyOnFeasible | python/qproc/internal/arbitrage_filter/arbitrage_filter.py:103-108 | on interior strikes the repricing filter can only fail with the RuntimeError, on a queued quote feasible by the time it is repriced; with distinct strikes that never happens (RepricingSucceeds) |
| ArbitrageFilters.AdjustOnInteriorStrikes | python/qproc/internal/arbitrage_filter/arbitrage_filter.py:98-111 | repricing quotes at interior strikes can only fail with the repricing rule's error |
| ArbitrageFilters.AdmissionKeepsInfeasible | python/qproc/internal/arbitrage_filter/arbitrage_filter.py:71-85 | admitting a feasible quote keeps the set arbitrage-free and every quote already in the complement infeasible |
| ArbitrageFilters.ProcessLeavesInfeasible | python/qproc/internal/arbitrage_filter/arbitrage_filter.py:66-85 | processing quotes at distinct interior strikes succeeds, ends arbitrage-free, and leaves only quotes the final set rejects in the complement |
| ArbitrageFilters.AdjustSucceeds | python/qproc/internal/arbitrage_filter/arbitrage_filter.py:93-111 | with 0 <= λ <= 1, repricing a complement of rejected quotes at distinct new strikes never raises the RuntimeError: each quote is still infeasible on its turn |
| ArbitrageFilters.RepricingSucceeds | python/qproc/internal/arbitrage_filter/arbitrage_filter.py:46-56 | on distinct interior strikes and 0 <= λ <= 1 the repricing filter always succeeds |
| ArbitrageFilters.FreshQueue | python/qproc/internal/arbitrage_filter/arbitrage_filter.py:58-61 | the ranked queue of a slice with distinct interior strikes holds distinct strikes new to the fresh set |
| ArbitrageFilters.FilterSliceArbitrageFree | python/qproc/internal/arbitrage_filter/arbitrage_filter.py:46-56 | on distinct interior strikes and 0 <= λ <= 1 both filters succeed and the final set is arbitrage-free |
| ArbitrageFilters.DistinctStrikesOnce | python/qproc/internal/arbitrage_filter/arbitrage_filter.py:81 | on distinct strikes every strike is held at most once |
| ArbitrageFilters.StrikeTwice | python/qproc/internal/arbitrage_filter/arbitrage_filter.py:81 | a strike held at two positions is counted at least twice |
| ArbitrageFilters.PermutationKeepsDistinctStrikes | python/qproc/internal/arbitrage_filter/arbitrage_filter.py:61 | reordering quotes at distinct strikes keeps them distinct |
| ArbitrageFilters.AddQuoteIfFeasibleAsWritten | python/qproc/internal/arbitrage_filter/arbitrage_filter.py:76-85 | as written, a feasible quote reaches a method the set does not define (AttributeError); only an infeasible quote returns |
| ArbitrageFilters.AsWrittenRejectsFeasibleQuote | python/qproc/internal/arbitrage_filter/arbitrage_filter.py:83 | on a fresh set the feasible quote (strike 1, mid 0.5) aborts the run as written |
| ArbitrageFilters.StrikeFilter.SliceQuotes | python/qproc/internal/arbitrage_filter/arbitrage_filter.py:15-16 | the quotes of every slice, in slice order, one list per slice |
| ArbitrageFilters.StrikeFilter.constructor | python/qproc/internal/arbitrage_filter/arbitrage_filter.py:11-28 | no set yet, no slice index, fresh current variables, and the smoothing parameter (or its absence) repeated per expiry |
| ArbitrageFilters.StrikeFilter.InitializeCurrentVariables | python/qproc/internal/arbitrage_filter/arbitrage_filter.py:30-33 | a fresh arbitrage-free set and empty work lists; nothing else changes |
| ArbitrageFilters.StrikeFilter.AdvanceSliceIndex | python/qproc/internal/arbitrage_filter/arbitrage_filter.py:40-44 | the first call selects slice 0, each later one the next slice |
| ArbitrageFilters.StrikeFilter.SetLiquiditySortedQuotes | python/qproc/internal/arbitrage_filter/arbitrage_filter.py:58-61 | the work list and the slice's own list both become the slice's quotes sorted by descending liquidity |
| ArbitrageFilters.StrikeFilter.AddQuoteIfFeasible | python/qproc/internal/arbitrage_filter/arbitrage_filter.py:76-85 | admits `q` exactly when lower <= mid <= upper and reports whether it did; the set stays arbitrage-free |
| ArbitrageFilters.StrikeFilter.PerformProcessIteration | python/qproc/internal/arbitrage_filter/arbitrage_filter.py:71-74 | pops the most liquid quote and admits it or appends it to the complement: one step of `Process` |
| ArbitrageFilters.StrikeFilter.ProcessQuoteSlice | python/qproc/internal/arbitrage_filter/arbitrage_filter.py:66-69 | runs `Process` on the live set and work list, emptying the work list |
| ArbitrageFilters.StrikeFilter.PerformAdjustIteration | python/qproc/internal/arbitrage_filter/arbitrage_filter.py:98-111 | pops the oldest complement quote, reprices it into the live bounds and inserts it: one step of `Adjust` |
| ArbitrageFilters.StrikeFilter.AdjustRemainingQuotes | python/qproc/internal/arbitrage_filter/arbitrage_filter.py:93-96 | repricing filter: runs `Adjust` over the complement; discarding filter (line 121-122): changes nothing |
| ArbitrageFilters.StrikeFilter.SmoothingGiven | python/qproc/internal/arbitrage_filter/arbitrage_filter.py:24-28 | a repricing filter's per-expiry λ is present |
| ArbitrageFilters.StrikeFilter.FilterQuoteSlice | python/qproc/internal/arbitrage_filter/arbitrage_filter.py:46-56 | the slice's quotes become the interior of its `FilterSlice` run, the set is recorded and fresh variables start; errors as `FilterSlice` |
| ArbitrageFilters.StrikeFilter.FilterNextSlice | python/qproc/internal/arbitrage_filter/arbitrage_filter.py:36-38 | advances the index and filters the slice it points to; the other slices keep their quotes |
| ArbitrageFilters.StrikeFilter.Filter | python/qproc/internal/arbitrage_filter/arbitrage_filter.py:35-38 | from a fresh filter every slice ends up holding the interior of its own run, and the sets are recorded in slice order |
| FilterQuote.NewQuote | Arbitrage_Based_Filtering_of_Option_Price_Data/filter_implementation/quote.py:12-21 | moneyness times the forward gives back the strike; the other fields are as given and nothing is adjusted yet |
| FilterQuote.Adjust | Arbitrage_Based_Filtering_of_Option_Price_Data/filter_implementation/quote.py:38-47 | the premium becomes the new one, the volatility the solver's, the recorded adjustments give back the old premium and volatility, the quote is marked adjusted, and strike, expiry, moneyness and ranking stay |
| FilterQuote.QuoteLessIsStrictWeakOrder | Arbitrage_Based_Filtering_of_Option_Price_Data/filter_implementation/quote.py:24-28 | ordering quotes by strike is a strict weak order, as `bisect` needs |
| FilterQuote.RankLessIsStrictWeakOrder | python/filter_implementation/quote_slice.py:26 | ordering by ranking quantity is a strict weak order |
| FilterQuote.RankSorted | python/filter_implementation/quote_slice.py:25-26 | the constructor's sort is a permutation of the quotes, of the same length, ascending in ranking quantity |
| FilterQuote.AdjustKeepsStrikeOrder | Arbitrage_Based_Filtering_of_Option_Price_Data/filter_implementation/quote.py:38-47 | adjusting a quote in a strike-sorted list keeps it strike-sorted with the same strikes |
| FilterQuote.Strikes | Arbitrage_Based_Filtering_of_Option_Price_Data/filter_implementation/quote.py:24-35 | the strikes of a list, position by position |
| FilterQuote.StrikesOfConcat | Arbitrage_Based_Filtering_of_Option_Price_Data/filter_implementation/quote.py:24-35 | the strikes of a concatenation are the concatenated strikes |
| FilterQuote.IndexOfStrike | python/filter_implementation/quote_slice.py:126 | the first position holding the strike (the `==` of quotes compares strikes only) |
| FilterQuote.RemoveQuote | python/filter_implementation/quote_slice.py:125-126 | `list.remove` drops exactly the first quote with the same strike |
| FilterQuote.StrikesOfInsort | python/filter_implementation/quote_slice.py:132 | `insort_left` adds exactly the new strike and keeps every old quote |
| FilterQuote.StrikesOfSplice | python/filter_implementation/quote_slice.py:132 | splicing a quote in adds its strike to the list's strikes |
| FilterQuote.StrikesOfPermutation | python/filter_implementation/quote_slice.py:26 | a reordered list has the same strikes, counted with multiplicity |
| FilterQuote.DistinctStrikesOccurOnce | Arbitrage_Based_Filtering_of_Option_Price_Data/filter_implementation/quote.py:31-35 | with distinct strikes no quote occurs twice |
| FilterQuote.PermutationKeepsCandidates | python/filter_implementation/quote_slice.py:249-252 | reordering candidate quotes (positive, distinct strikes) keeps them candidates |
| FilterSliceBounds.Quote0 | python/filter_implementation/quote_slice.py:34-42 | the synthetic quote sits at strike and moneyness 0 with premium DF·F |
| FilterSliceBounds.TheoreticalMaximumPrice | python/filter_implementation/quote_slice.py:168-169 | the theoretical maximum is the strike-0 quote's premium |
| FilterSliceBounds.TheoreticalBoundsOrdered | python/filter_implementation/quote_slice.py:168-173 | for DF >= 0, F > 0 and K >= 0: 0 <= DF·max(F - K, 0) <= DF·F and the minimum dominates DF·(F - K) |
| FilterSliceBounds.LeftAdjacent | python/filter_implementation/quote_slice.py:72-73 | `find_lt`: the last position with a strike below the quote's |
| FilterSliceBounds.RightAdjacent | python/filter_implementation/quote_slice.py:45-46 | `find_gt`: the first position with a strike above the quote's |
| FilterSliceBounds.LeftCandidate | python/filter_implementation/quote_slice.py:88-91 | the left candidate is floored at 0 |
| FilterSliceBounds.LowerBound | python/filter_implementation/quote_slice.py:87-101 | the lower bound is the left candidate, or the larger of it and the right candidate when the quote is enclosed (line 64-65) |
| FilterSliceBounds.LeftCandidateNearZeroIsIntrinsic | python/filter_implementation/quote_slice.py:76-91 | with fewer than two admitted points left of the quote the default slope -DF gives the theoretical minimum DF·max(F - k, 0) |
| FilterSliceBounds.UpperBoundBetweenNeighbours | python/filter_implementation/quote_slice.py:104-115 | the enclosed upper bound lies between the neighbours' premiums; otherwise it is the left neighbour's premium |
| FilterSliceBounds.ChordBetween | python/filter_implementation/quote_slice.py:110-112 | the interpolated premium is a weighted average of the two neighbours' |
| FilterSliceBounds.AdjustQuote | python/filter_implementation/quote_slice.py:141-147 | below the bounds the premium becomes lb + ALPHA(ub - lb) = lb, above them ub; within them the quote is unchanged; ordered bounds give a premium within them; only a moved quote gets marked |
| FilterSliceBounds.TruncateToTheoreticalBounds | python/filter_implementation/quote_slice.py:176-181 | the premium ends within [DF·max(F - K, 0), DF·F], and the quote changes exactly when it was outside |
| FilterSliceBounds.DummyQuote | python/filter_implementation/quote_slice.py:258-263 | the dummy quote carries the requested strike |
| FilterSliceBounds.BoundForMoneyness | python/filter_implementation/quote_slice.py:266-282 | at an admitted strike m·F the premium held there, otherwise the lower or upper bound at a dummy quote |
| FilterSliceBounds.IndexOfQuote | python/filter_implementation/quote_slice.py:273 | on a set strictly sorted by strike, `index` finds the only quote at the strike, and reports -1 exactly when no quote has it |
| FilterForwardBounds.LowerScalingFactor | python/filter_implementation/quote_surface.py:92-99 | the factor maps the earlier strike-0 premium DF1·F1 onto DF2·F2, and is positive on positive terms |
| FilterForwardBounds.UpperScalingFactor | python/filter_implementation/quote_surface.py:30-31 | the reciprocal of the lower factor: maps DF2·F2 back onto DF1·F1 |
| FilterForwardBounds.RaiseFloor | python/filter_implementation/quote_surface.py:109-110 | the running infimum after one contribution is at least it and at least the old one, and is one of them |
| FilterForwardBounds.AtLeastFloor | python/filter_implementation/quote_surface.py:61 | `max(bound, infimum)` is at least both and equals one of them (-inf contributes nothing) |
| FilterForwardBounds.FloorOf | python/filter_implementation/quote_surface.py:103-112 | the loop's result is -inf exactly on no contributions, dominates every contribution and equals one of them |
| FilterForwardBounds.ScaledLowerBounds | python/filter_implementation/quote_surface.py:105-108 | one scaled lower bound per filtered slice, in filtering order |
| FilterForwardBounds.Infimum | python/filter_implementation/quote_surface.py:102-112 | -inf exactly with no filtered slices; otherwise the greatest scaled lower bound, attained by some filtered slice |
| FilterForwardBounds.ForwardBounds | python/filter_implementation/quote_surface.py:57-67 | raises exactly when the infimum exceeds the slice's upper bound; otherwise the upper bound is the slice's and the lower bound is the larger of the slice's and every scaled earlier bound, and equals one of them |
| FilterForwardBounds.IsValidForward | python/filter_implementation/quote_surface.py:70-72 | raises as the bounds do; with no filtered slices it is the strike-only validity test |
| FilterForwardBounds.ListExceeds | python/filter_implementation/quote_surface.py:37-41 | true exactly when some quote of the list exceeds the scaled upper bound |
| FilterForwardBounds.PreviousPremiumExceeds | python/filter_implementation/quote_surface.py:34-43 | true exactly when some quote of some filtered slice exceeds the current slice's scaled upper bound |
| FilterFills.DropFirstInsertable | python/filter_implementation/quote_slice.py:130-133 | the quotes after the visited one stay insertable: distinct positive strikes that the set does not hold |
| FilterFills.DerivedFromTransitive | python/filter_implementation/quote_slice.py:150-155 | a repricing of a repricing of a pending quote is a repricing of that quote |
| FilterFills.InsertStep | python/filter_implementation/quote_slice.py:132 | `insort_left` of a quote at a positive strike keeps the set shaped (strike-0 quote first, sorted by strike) and adds exactly its strike |
| FilterFills.InsertStepDistinct | python/filter_implementation/quote_slice.py:132 | on distinct strikes the insertion keeps the set strictly sorted and the rest insertable |
| FilterFills.AdmittedAccounting | python/filter_implementation/quote_slice.py:131-133 | an admitted quote moves from the pending list into the set: strikes are conserved |
| FilterFills.RejectedAccounting | python/filter_implementation/quote_slice.py:130-133 | a rejected quote stays in the pending list, in its place: strikes are conserved |
| FilterFills.InitialFill | python/filter_implementation/quote_slice.py:129-133 | the first fill fails only by a lookup or by LowerBoundMoneynessTooHigh, without earlier slices only by a lookup; a success keeps the set shaped, conserves strikes between set and pending list, only removes from the list and only adds to the set quotes it visited, each above the floor |
| FilterFills.InitialFillStep | python/filter_implementation/quote_slice.py:130-133 | one turn of the first fill: an error ends it, a valid quote goes into the set and leaves the list (`list.remove`), an invalid one stays |
| FilterFills.Prepended | python/filter_implementation/quote_slice.py:150 | putting quotes in front of a fill's left-over list keeps its outcome, its set and its error |
| FilterFills.PrependedNothing | python/filter_implementation/quote_slice.py:150 | prepending nothing changes nothing |
| FilterFills.PrependedTwice | python/filter_implementation/quote_slice.py:150 | prepending twice is prepending the concatenation |
| FilterFills.AdjustedAccounting | python/filter_implementation/quote_slice.py:150-155 | one turn of the adjusted fill: the repriced quote goes in, its contract is kept, strikes are conserved |
| FilterFills.AdjustedFill | python/filter_implementation/quote_slice.py:150-155 | the adjusted fill fails only by a lookup or by LowerBoundMoneynessTooHigh; a success keeps the set shaped, adds every listed strike, reprices the list in place keeping each contract, and adds only repricings of listed quotes above the floor |
| FilterFills.AdjustedFillStep | python/filter_implementation/quote_slice.py:151-155 | one turn of the adjusted fill: the quote is repriced into its bounds and inserted, a bound error ends it |
| FilterFills.InitialSet | python/filter_implementation/quote_slice.py:184-187 | the pass starts from the strike-0 quote and the first ranked quote truncated to the theoretical bounds; the rest stays pending |
| FilterFills.PassAccounting | python/filter_implementation/quote_slice.py:190-196 | the three passes together leave a set that is the strike-0 quote followed by the filtered list, with the pending strikes and quotes derived from the pending ones |
| FilterFills.PassStrikes | python/filter_implementation/quote_slice.py:190-196 | the filtered list holds exactly the pending strikes, as often as they are pending |
| FilterFills.FillSlice | python/filter_implementation/quote_slice.py:190-196 | an empty list fails with IndexError; otherwise only by a lookup or LowerBoundMoneynessTooHigh, without earlier slices only by a lookup; a success is a filtered state of the pending quotes whose set is above the floor but possibly at the first-ranked quote |
| FilterFills.StrikeFilter | python/filter_implementation/quote_slice.py:190-196 | `filter_in_strike_dimension` fails with IndexError exactly on an empty list and otherwise only by a lookup, never on distinct positive strikes, where the set comes out strictly sorted; a success is filtered and keeps the list's length |
| FilterFills.RemovePendingQuote | python/filter_implementation/quote_slice.py:133 | on distinct strikes `list.remove` drops exactly the visited quote |
| FilterFills.InsertableRotate | python/filter_implementation/quote_slice.py:130-133 | moving the visited quote to the front keeps the pending quotes insertable |
| FilterFills.AdmitDistinct | python/filter_implementation/quote_slice.py:131-133 | on distinct strikes admitting a quote keeps the set strictly sorted and the left-over list insertable |
| FilterFills.RejectDistinct | python/filter_implementation/quote_slice.py:130-131 | on distinct strikes rejecting a quote keeps the set and the left-over list insertable |
| FilterFills.InitialFillDistinct | python/filter_implementation/quote_slice.py:129-133 | on distinct positive strikes after slices filtered from distinct strikes, the first fill fails only with LowerBoundMoneynessTooHigh and keeps the set strictly sorted |
| FilterFills.AdjustedFillDistinct | python/filter_implementation/quote_slice.py:150-155 | the same for the adjusted fill |
| FilterFills.FillSliceDistinct | python/filter_implementation/quote_slice.py:190-196 | on distinct positive strikes a pass fails only with LowerBoundMoneynessTooHigh after slices filtered from distinct strikes, never without earlier slices, and keeps the set strictly sorted |
| FilterFills.ForwardAttempt | python/filter_implementation/quote_surface.py:82-89 | a success is filtered, no earlier premium exceeds the new bounds, and every quote of the set but the first-ranked one is at least at the infimum the filtered slices imply at its moneyness (the first-ranked one too when it started within the theoretical bounds and above it); failures are IndexError (exactly on an empty list), a lookup, LowerBoundMoneynessTooHigh or PreviousPremiumTooHigh, never a lookup on distinct strikes; without earlier slices it is the strike filter |
| FilterFills.ForwardBoundsAboveFloor | python/filter_implementation/quote_surface.py:57-67 | the forward lower bound is at least the infimum, and so is an upper bound that did not raise |
| FilterFills.ValidAboveFloor | python/filter_implementation/quote_surface.py:70-72 | a quote the forward validity test admits is priced at least at the infimum at its moneyness |
| FilterFills.AdjustedAboveFloor | python/filter_implementation/quote_surface.py:46-48 | the forward adjustment leaves the premium at least at the infimum |
| FilterQuoteSlice.QuoteSlice.constructor | python/filter_implementation/quote_slice.py:20-31 | the terms as given, the list sorted by ranking quantity, an empty set and not filtered |
| FilterQuoteSlice.QuoteSlice.PopFirstRankedQuote | python/filter_implementation/quote_slice.py:158-165 | the first-ranked quote leaves the list; an empty list raises IndexError and is left alone |
| FilterQuoteSlice.QuoteSlice.ComputeInitialArbitrageConsistentSet | python/filter_implementation/quote_slice.py:184-187 | the slice becomes the initial set of the pass; an empty list raises IndexError and is left alone |
| FilterQuoteSlice.QuoteSlice.IsValidQuote | python/filter_implementation/quote_slice.py:118-122 | its answer is the turn the first fill takes: an error ends the fill, a valid quote is admitted, an invalid one stays |
| FilterQuoteSlice.QuoteSlice.AdmitQuote | python/filter_implementation/quote_slice.py:132-133 | the quote is inserted into the set and `list.remove` drops the first pending quote at its strike |
| FilterQuoteSlice.QuoteSlice.InitialFillArbitrageConsistentSet | python/filter_implementation/quote_slice.py:129-133 | the loop ends where the first fill does: its state on success, its error on failure |
| FilterQuoteSlice.QuoteSlice.AdjustmentBounds | python/filter_implementation/quote_slice.py:152-153 | the bounds are the turn the adjusted fill takes: an error ends it, otherwise the repriced quote is inserted and stays in front |
| FilterQuoteSlice.QuoteSlice.AdjustedFillTurn | python/filter_implementation/quote_slice.py:151-155 | one turn of the loop keeps the fill from here equal to the adjusted fill from the start |
| FilterQuoteSlice.QuoteSlice.ReplaceAndInsert | python/filter_implementation/quote_slice.py:154-155 | the quote is repriced in its place in the list and inserted into the set |
| FilterQuoteSlice.QuoteSlice.FillArbitrageConsistentSetWithAdjustedQuotes | python/filter_implementation/quote_slice.py:150-155 | the loop ends where the adjusted fill does: its state on success, its error on failure |
| FilterQuoteSlice.QuoteSlice.SetFilteredSortedQuoteList | python/filter_implementation/quote_slice.py:136-138 | the list becomes the set without its strike-0 quote |
| FilterQuoteSlice.QuoteSlice.FilterPass | python/filter_implementation/quote_slice.py:190-195 | the pass ends where the fill of the slice does; an empty list is left alone |
| FilterQuoteSlice.QuoteSlice.FilterInStrikeDimension | python/filter_implementation/quote_slice.py:190-196 | the slice ends where the strike filter does and is marked filtered on success only; an empty list is left alone |
| FilterQuoteSlice.QuoteSlice.ComputePercentageOfQuotesAdjusted | python/filter_implementation/quote_slice.py:212-222 | the loop computes the percentage of adjusted quotes, ZeroDivisionError on an empty list |
| FilterQuoteSlice.QuoteSlice.CorrectArbitrageConsistentSetPostfilter | python/filter_implementation/quote_slice.py:225-228 | the set becomes the strike-0 quote followed by the list sorted by strike |
| FilterQuoteSlice.QuoteSlice.StrikeAttemptTurn | python/filter_implementation/quote_slice.py:238-239 | one attempt gives the percentage, or the error, of the attempt the safeguard describes, and on success leaves its list |
| FilterQuoteSlice.QuoteSlice.FilterInStrikeDimensionWithSafeguard | python/filter_implementation/quote_slice.py:231-255 | the slice ends where the strike safeguard does, marked filtered on success; its error otherwise; an empty list is left alone |
| FilterQuoteSlice.QuoteSlice.AttemptsWithSafeguard | python/filter_implementation/quote_slice.py:235-252 | the attempts give the list from which the strike safeguard's set is repaired, or its error |
| FilterQuoteSlice.QuoteSlice.StrikeAttempts | python/filter_implementation/quote_slice.py:237-252 | the loop keeps the list of the attempt `Choose` picks, or ends with the error of the attempt that raised |
| FilterQuoteSlice.QuoteSlice.SafeguardOfAttempts | python/filter_implementation/quote_slice.py:237-255 | the choice among the attempts is what the strike safeguard returns |
| FilterQuoteSlice.QuoteSlice.SetQuotesToMaximumTheoreticalValue | python/filter_implementation/quote_slice.py:297-300 | every quote of the list is repriced in place to DF·F |
| FilterQuoteSlice.QuoteSlice.FinalSafeguardAttemptSurface | python/filter_implementation/quote_slice.py:303-305 | the slice becomes the last resort's state |
| FilterQuoteSlice.FillSliceSteps | python/filter_implementation/quote_slice.py:190-195 | the method's three steps compose to the fill of the slice |
| FilterSafeguard.CountAdjusted | python/filter_implementation/quote_slice.py:213-217 | the count is at most the length and grows by one exactly at an adjusted quote |
| FilterSafeguard.PercentageWithin | python/filter_implementation/quote_slice.py:219-220 | the percentage of adjusted quotes lies between 0 and 100 |
| FilterSafeguard.PercentageOfQuotesAdjusted | python/filter_implementation/quote_slice.py:212-222 | ZeroDivisionError exactly on an empty list; otherwise a percentage between 0 and 100 |
| FilterSafeguard.ChooseFromChoosesBest | python/filter_implementation/quote_slice.py:237-247 | from any attempt on, the loop keeps the earliest lowest percentage, stops early only within the cap, or ends with the error of the first attempt that raises |
| FilterSafeguard.Choose | python/filter_implementation/quote_slice.py:233-247 | at least one and at most MAXIMUM_NUMBER_OF_ATTEMPTS attempts; the earliest lowest percentage is kept; early stop only within the cap; an error only from an attempt after attempts over the cap, and none when no attempt raises |
| FilterSafeguard.StrikeAttemptInput | python/filter_implementation/quote_slice.py:235-252 | each attempt's list is a permutation of the master copy with its first-ranked quote in front |
| FilterSafeguard.DerivedFromPermutation | python/filter_implementation/quote_slice.py:249-252 | a quote derived from a list is derived from any permutation of it |
| FilterSafeguard.FilteredOfPermutation | python/filter_implementation/quote_slice.py:249-252 | a filtered state of a permutation is a filtered state of the master copy |
| FilterSafeguard.CandidatesOfPermutation | python/filter_implementation/quote_slice.py:249-252 | a permutation of quotes at distinct positive strikes holds distinct positive strikes |
| FilterSafeguard.StrikeAttempt | python/filter_implementation/quote_slice.py:238 | an attempt fails only by a lookup, never on distinct positive strikes, where its set is strictly sorted; a success is a filtered state of the master copy of the same length |
| FilterSafeguard.StrikeAttemptPercentage | python/filter_implementation/quote_slice.py:239 | the attempt's percentage of adjusted quotes, or its error |
| FilterSafeguard.StrikeAttemptPercentages | python/filter_implementation/quote_slice.py:239 | every attempt's percentage, each failing only by a lookup |
| FilterSafeguard.StrikeAttemptList | python/filter_implementation/quote_slice.py:243 | the list a successful attempt leaves |
| FilterSafeguard.StrikeAttemptLists | python/filter_implementation/quote_slice.py:243 | every attempt's list |
| FilterSafeguard.StrikeSafeguardAttempts | python/filter_implementation/quote_slice.py:237-255 | the safeguard is the set repaired from the list of the attempt `Choose` keeps, or the error of the attempt that raised |
| FilterSafeguard.PostfilterSet | python/filter_implementation/quote_slice.py:225-228 | the set is the strike-0 quote followed by a sorted permutation of the list |
| FilterSafeguard.PostfilterOfSorted | python/filter_implementation/quote_slice.py:225-228 | repairing from a list already sorted by strike gives the list back behind the strike-0 quote |
| FilterSafeguard.PostfilterOfFiltered | python/filter_implementation/quote_slice.py:254-255 | repairing a filtered state changes nothing |
| FilterSafeguard.PostfilterShaped | python/filter_implementation/quote_slice.py:225-228 | the repaired set is shaped, strictly sorted on distinct positive strikes |
| FilterSafeguard.StrikeSafeguard | python/filter_implementation/quote_slice.py:231-255 | fails with IndexError exactly on an empty list and otherwise only by a lookup, never on distinct positive strikes, where its set is strictly sorted; a success is a filtered state of the master copy, the one of the attempt chosen |
| FilterSafeguard.BestStrikeAttempt | python/filter_implementation/quote_slice.py:241-244 | the attempt kept exists and succeeded; the choice fails only by a lookup, never on distinct positive strikes |
| FilterSafeguard.ChooseFailsByLookup | python/filter_implementation/quote_slice.py:237-247 | attempts that fail only by a lookup make the choice fail only by a lookup |
| FilterSafeguard.AllAtMaximum | python/filter_implementation/quote_slice.py:297-300 | every quote keeps its contract, is priced at DF·F and is marked adjusted |
| FilterSafeguard.FinalSafeguard | python/filter_implementation/quote_slice.py:303-305 | the last resort's list is every quote at DF·F, and the set the strike-0 quote followed by them |
| FilterSafeguard.FilteredIsAccounted | python/filter_implementation/quote_slice.py:190-196 | a filtered state accounts for its pending list |
| FilterSafeguard.FinalSafeguardAccounted | python/filter_implementation/quote_slice.py:303-305 | the last resort accounts for its pending list |
| FilterForwardFilter.AccountedIsReady | python/filter_implementation/quote_surface.py:204-212 | a filtered slice is ready for later lookups, and on distinct positive strikes with a strictly sorted set none of them fails |
| FilterForwardFilter.AccountedOfPermutation | python/filter_implementation/quote_surface.py:192-193 | an account of a list is an account of any permutation of it |
| FilterForwardFilter.AccountedOfRepriced | python/filter_implementation/quote_surface.py:118-137 | an account of a repriced list is an account of the list it was repriced from |
| FilterForwardFilter.StrikeMoneyness | python/filter_implementation/quote_surface.py:133 | the moneyness times the forward is the strike, with the strike's sign |
| FilterForwardFilter.TruncatedFirst | python/filter_implementation/quote_surface.py:127-137 | fails exactly when the infimum's lookups do; otherwise a repricing within [max(theoretical minimum, infimum), DF·F] when that range is not empty; with no filtered slice the truncation to the theoretical bounds; never fails at a non-negative strike after slices filtered from distinct strikes |
| FilterForwardFilter.RepricedCandidates | python/filter_implementation/quote_surface.py:118 | repricing one quote keeps distinct positive strikes |
| FilterForwardFilter.TruncateFirstRanked | python/filter_implementation/quote_surface.py:127-137 | only the first-ranked quote changes, to its truncation; strikes are kept; the error is the truncation's |
| FilterForwardFilter.NonNegativeOfSameStrikes | python/filter_implementation/quote_surface.py:118-137 | lists with the same strikes have non-negative strikes together |
| FilterForwardFilter.BumpSize | python/filter_implementation/quote_surface.py:121-124 | ten bumps take the first-ranked premium exactly to DF·F; the size is non-negative when the premium is at most DF·F |
| FilterForwardFilter.Bump | python/filter_implementation/quote_surface.py:115-118 | only the first-ranked quote changes: same contract, premium raised by the size, marked adjusted |
| FilterForwardFilter.BumpAccounted | python/filter_implementation/quote_surface.py:164 | an account of the bumped list is an account of the list before |
| FilterForwardFilter.BumpFits | python/filter_implementation/quote_surface.py:115-124 | a fitting first-ranked quote is below DF·F and still fits after a bump |
| FilterForwardFilter.RetryFrom | python/filter_implementation/quote_surface.py:150-164 | the retries fail only by a lookup (not caught), retry only on the two exceptions, and end with an accounted state that either conflicts with no earlier premium and keeps the floor but possibly at the first-ranked quote (at it too when it fits), or is at DF·F; with no filtered slice they are the strike filter; on distinct positive strikes after slices filtered from distinct strikes they succeed with a strictly sorted set |
| FilterForwardFilter.FinalSafeguardIfDistinct | python/filter_implementation/quote_slice.py:303-305 | on distinct positive strikes the last resort's set is strictly sorted |
| FilterForwardFilter.FinalSafeguardDistinct | python/filter_implementation/quote_slice.py:303-305 | the same, as a hypothesis |
| FilterForwardFilter.StrikeFilterAfterTruncation | python/filter_implementation/quote_surface.py:140-167 | truncating to the theoretical bounds before the strike filter changes nothing |
| FilterForwardFilter.TruncatedFits | python/filter_implementation/quote_surface.py:121-137 | when there is room for it, the truncated first-ranked quote fits all ten retries |
| FilterForwardFilter.TruncatedWithinBounds | python/filter_implementation/quote_surface.py:127-137 | the truncated first-ranked quote lies within the theoretical bounds and above the floor |
| FilterForwardFilter.LowerBoundBelow | python/filter_implementation/quote_surface.py:135 | the lower bound of the truncation stays below DF·F when both its parts do |
| FilterForwardFilter.ReportedMoneyness | python/filter_implementation/quote_surface.py:133 | a quote's moneyness is the one the truncation computes |
| FilterForwardFilter.ForwardFilterForIndex | python/filter_implementation/quote_surface.py:140-171 | fails with IndexError exactly on an empty slice and otherwise only by a lookup, never on distinct positive strikes after slices filtered from distinct strikes, where the set is strictly sorted; a success accounts for the slice and conflicts with no earlier premium, or is the strike safeguard's |
| FilterForwardFilter.ForwardFilterWithoutPrevious | python/filter_implementation/quote_surface.py:140-171 | with no filtered slice the forward filter for a slice is the strike filter |
| FilterForwardFilter.ForwardFilterKeepsFloor | python/filter_implementation/quote_surface.py:140-171 | unless it fell back to the strike safeguard or the last resort, the set keeps the floor but possibly at the first-ranked quote, and at it too when there was room for it |
| FilterForwardFilter.TruncatedFirstRanked | python/filter_implementation/quote_surface.py:144-146 | the truncated first-ranked quote keeps its contract and, with room, fits the retries |
| FilterForwardFilter.TruncateAccounted | python/filter_implementation/quote_surface.py:144 | an account of the truncated list is an account of the original |
| FilterForwardFilter.AccountedLength | python/filter_implementation/quote_surface.py:171 | an accounted list has the pending list's length |
| FilterForwardFilter.SurfaceAttemptInput | python/filter_implementation/quote_surface.py:178-193 | each attempt's list is a permutation of the master copy |
| FilterForwardFilter.SurfaceAttempt | python/filter_implementation/quote_surface.py:181 | an attempt fails only by a lookup, never on distinct positive strikes after slices filtered from distinct strikes, where its set is strictly sorted; a success accounts for the master copy |
| FilterForwardFilter.SurfaceAttemptPercentage | python/filter_implementation/quote_surface.py:182 | the attempt's percentage of adjusted quotes, or its error |
| FilterForwardFilter.SurfaceAttemptPercentages | python/filter_implementation/quote_surface.py:182 | every attempt's percentage, each failing only by a lookup |
| FilterForwardFilter.BestSurfaceAttempt | python/filter_implementation/quote_surface.py:184-187 | the attempt kept exists and succeeded; the choice fails only by a lookup, never on distinct strikes |
| FilterForwardFilter.SurfaceAttemptsSucceed | python/filter_implementation/quote_surface.py:180-182 | on distinct positive strikes after slices filtered from distinct strikes no attempt fails |
| FilterForwardFilter.ForwardSafeguard | python/filter_implementation/quote_surface.py:174-195 | fails with IndexError exactly on an empty slice and otherwise only by a lookup, never on distinct strikes; a success is the chosen attempt, with no repair of the set |
| FilterForwardFilter.FilterForIndex | python/filter_implementation/quote_surface.py:206-207 | either filter fails with IndexError exactly on an empty slice, otherwise only by a lookup, and accounts for the slice |
| FilterForwardFilter.SurfaceSliceFilter | python/filter_implementation/quote_surface.py:206-207 | the chosen filter meets what the surface relies on |
| FilterForwardFilter.Recorded | python/filter_implementation/quote_surface.py:170-171 | the recorded slice holds the terms and the state reached |
| FilterForwardFilter.SomeEmptyFromMeansSomeEmpty | python/filter_implementation/quote_surface.py:210-212 | some slice from the index on is empty exactly when one is |
| FilterForwardFilter.AllReadyPrefix | python/filter_implementation/quote_surface.py:105 | earlier slices of ready slices are ready |
| FilterForwardFilter.PrefixOfExtended | python/filter_implementation/quote_surface.py:212 | the records grow by appending |
| FilterForwardFilter.FilterFrom | python/filter_implementation/quote_surface.py:209-212 | an empty slice ahead makes the loop fail, IndexError only from one, otherwise only a lookup, which never fails on distinct positive strikes; a success records every slice, ready and accounted, from distinct strikes when the slices have them |
| FilterForwardFilter.FilterFromSteps | python/filter_implementation/quote_surface.py:210-212 | each slice is filtered against exactly the slices recorded before it |
| FilterForwardFilter.FirstSliceSafeguard | python/filter_implementation/quote_surface.py:203 | the strike safeguard on a slice of the surface, with its error cases and distinct-strike facts |
| FilterForwardFilter.StrikeSliceFilter | python/filter_implementation/quote_surface.py:203 | the first slice's filter meets what the surface relies on and is the strike safeguard |
| FilterForwardFilter.FilterSurface | python/filter_implementation/quote_surface.py:202-214 | no slices or an empty one make it fail, IndexError only from those, otherwise only a lookup, never on distinct positive strikes; a success records every slice, ready and accounted, the first by the first-slice filter |
| FilterForwardFilter.FilterSurfaceForward | python/filter_implementation/quote_surface.py:202-214 | the same for the surface's own two filters |
| FilterForwardFilter.FilterSurfaceSteps | python/filter_implementation/quote_surface.py:210-212 | every later slice is filtered against exactly the slices recorded before it |
| FilterForwardFilter.FilterSurfaceForwardFirst | python/filter_implementation/quote_surface.py:203 | the first slice is filtered by the strike safeguard |
| FilterForwardFilter.FilterSurfaceForwardLater | python/filter_implementation/quote_surface.py:210-211 | every later slice is filtered by the chosen calendar filter against the slices before it |
| FilterForwardFilter.ExpiryLessIsStrictWeakOrder | python/filter_implementation/quote_surface.py:24 | ordering slices by expiry is a strict weak order |
| FilterForwardFilter.RankedSlice | python/filter_implementation/quote_slice.py:25-26 | a ranked slice keeps its terms and is a permutation sorted by ranking quantity |
| FilterForwardFilter.RankedSlices | python/filter_implementation/quote_slice.py:25-26 | every slice ranked |
| FilterForwardFilter.SortedSlices | python/filter_implementation/quote_surface.py:23-24 | the slices come in ascending expiry |
| FilterForwardFilter.SortedSlicesPermutes | python/filter_implementation/quote_surface.py:23-24 | sorting only reorders the ranked slices |
| FilterForwardFilter.SortedSlicesMembers | python/filter_implementation/quote_surface.py:23-24 | the surface holds exactly the ranked slices |
| FilterForwardFilter.RankedSliceKeeps | python/filter_implementation/quote_slice.py:25-26 | ranking keeps a slice well formed and its strikes distinct and positive |
| FilterForwardFilter.SortedSliceOrigin | python/filter_implementation/quote_surface.py:23-24 | every sorted slice is the ranking of a given one |
| FilterForwardFilter.SortedSlicesWellFormed | python/filter_implementation/quote_surface.py:23-24 | sorting keeps the slices well formed, distinct where they were, and which of them are empty |
| FilterForwardFilter.SortedSlicesEmpty | python/filter_implementation/quote_surface.py:23-24 | sorting keeps which slices are empty |
| FilterForwardFilter.FilterQuoteSurface | python/filter_implementation/quote_surface.py:20-26 | no slices or an empty one make it fail, IndexError only from those, otherwise only a lookup, never on distinct positive strikes; a success records every slice in expiry order, ready and accounted |
| FilterForwardFilter.FilterQuoteSurfaceOrdered | python/filter_implementation/quote_surface.py:202-214 | the records come in expiry order |
| FilterForwardFilter.RecordsKeepExpiryOrder | python/filter_implementation/quote_surface.py:202-214 | records of expiry-ordered slices are in expiry order |
| QuoteStructures.Quote.Mid | python/qproc/internal/quote_structures.py:41-46 | the mid is the average of bid and ask (equal to the bid when they agree) and lies between them |
| QuoteStructures.Quote.SetPrice | python/qproc/internal/quote_structures.py:48-57 | the mid side sets bid and ask, a single side only itself; strike and liquidity proxy stay |
| QuoteStructures.SetPriceThenPrice | python/qproc/internal/quote_structures.py:33-57 | reading back the side just set gives the price set; a one-sided update leaves the other side |
| QuoteStructures.QuoteLessIsStrictWeakOrder | python/qproc/internal/quote_structures.py:21-25 | ordering quotes by strike (with +inf last) is a strict weak order, as `bisect` needs |
| QuoteStructures.StrikeTrichotomy | python/qproc/internal/quote_structures.py:21-31 | of two strikes one is less or they are equal, never both less |
| QuoteStructures.QuoteSlice.constructor | python/qproc/internal/quote_structures.py:61-64 | the expiry as given and no quotes |
| QuoteStructures.QuoteSlice.AddQuote | python/qproc/internal/quote_structures.py:78-79 | `insort_left`: one more quote, the same multiset plus it, and a sorted list stays sorted |
| QuoteStructures.SliceLessIsStrictWeakOrder | python/qproc/internal/quote_structures.py:66-70 | ordering slices by expiry is a strict weak order |
| QuoteStructures.QuoteSurface.constructor | python/qproc/internal/quote_structures.py:86-92 | the units as given and no slices |
| QuoteStructures.QuoteSurface.AddSlice | python/qproc/internal/quote_structures.py:94-95 | `insort_left` by expiry; units unchanged; sorted slices stay sorted |
| QuoteStructures.QuoteSurface.Expiries | python/qproc/internal/quote_structures.py:100-101 | one expiry per slice, in slice order, ascending on sorted slices |
| QuoteStructures.QuoteSurface.NQuotes | python/qproc/internal/quote_structures.py:103-108 | the loop's total is the number of quotes over all slices |
| QuoteStructures.QuoteSurface.GetSlice | python/qproc/internal/quote_structures.py:110-118 | fails with the lookup error exactly when no slice has expiry at most the requested one; a returned slice is a slice with exactly that expiry, and on sorted slices an existing expiry is found |
| QuoteTransformation.TransformStrike | python/qproc/internal/quote_transformation.py:12-38 | unchanged when the units agree; a plain-strike result is the actual strike; a moneyness result times the forward gives the actual strike |
| QuoteTransformation.FromPlainScalesBack | python/qproc/internal/quote_transformation.py:31-34 | moneyness times the forward gives back the plain strike |
| QuoteTransformation.MoneynessRoundTrip | python/qproc/internal/quote_transformation.py:23-34 | strike to moneyness and back, and moneyness to strike and back, are identities |
| QuoteTransformation.LogMoneynessRoundTrip | python/qproc/internal/quote_transformation.py:26-36 | with exp and log inverse, positive strikes survive the log-moneyness round trip, and every log-moneyness survives the reverse one |
| QuoteTransformation.LogMoneynessOfStrike | python/qproc/internal/quote_transformation.py:26-36 | the strike to log-moneyness to strike round trip |
| QuoteTransformation.LogMoneynessOfExp | python/qproc/internal/quote_transformation.py:26-36 | the log-moneyness to strike to log-moneyness round trip |
| QuoteTransformation.DivKeepsOrder | python/qproc/internal/quote_transformation.py:34 | dividing by a positive forward keeps the order of strikes |
| QuoteTransformation.TransformStrikeKeepsOrder | python/qproc/internal/quote_transformation.py:12-34 | strike and moneyness conversions with a positive forward keep strike order both ways |
| QuoteTransformation.SinglePrice | python/qproc/internal/quote_transformation.py:68-103 | unchanged when the units agree; a call result is the call price; a normalized result times DF·F is the call price |
| QuoteTransformation.NormalizedCallRoundTrip | python/qproc/internal/quote_transformation.py:86-101 | call to normalized call and back, and back again, are identities |
| QuoteTransformation.CallThroughNormalized | python/qproc/internal/quote_transformation.py:86-101 | call to normalized call to call |
| QuoteTransformation.NormalizedThroughCall | python/qproc/internal/quote_transformation.py:86-101 | normalized call to call to normalized call |
| QuoteTransformation.VolatilityRoundTrip | python/qproc/internal/quote_transformation.py:79-98 | with the implied-vol solver inverting Black and sqrt a root, vol and total variance survive the round trip through the call price |
| QuoteTransformation.TransformPrice | python/qproc/internal/quote_transformation.py:41-56 | unchanged when the units agree; otherwise the single price at the actual strike |
| QuoteTransformation.TransformPrices | python/qproc/internal/quote_transformation.py:57-65 | the array path: fails (IndexError) exactly when there are fewer prices than strikes; otherwise a fresh array with one converted price per strike |
| QuoteTransformation.TransformQuoteStrike | python/qproc/internal/quote_transformation.py:124-130 | the +inf strike stays +inf; a finite strike becomes the finite strike `TransformStrike` converts it to; equal units change nothing |
| QuoteTransformation.UpdatePriceUnit | python/qproc/internal/quote_transformation.py:143-156 | bid and ask each converted by `SinglePrice` at the quote's actual strike, for every target unit (a normalized price times DF·F is the call price); strike and proxy stay |
| QuoteTransformation.TransformQuote | python/qproc/internal/quote_transformation.py:106-140 | equal units return the quote unchanged; otherwise the strike goes to the plain strike and on to the target unit; the proxy and the infinite strike stay; bid and ask are each converted at the actual strike |
| QuoteTransformation.TransformQuoteRoundTrip | python/qproc/internal/quote_transformation.py:106-156 | call/strike to normalized call/moneyness and back returns the quote |
| QuoteTransformation.TransformQuoteKeepsOrder | python/qproc/internal/quote_transformation.py:124-130 | converting strikes without log-moneyness keeps the order of quotes both ways |
| QuoteTransformation.TransformQuotes | python/qproc/internal/quote_transformation.py:106-140 | one converted quote per quote |
| QuoteTransformation.TransformQuotesKeepsSorted | python/qproc/internal/quote_transformation.py:124-130 | converting a strike-sorted list keeps it sorted |
| LiquidityProxies.LiquidityProxy | python/qproc/internal/liquidity_proxy_computation.py:10-12 | the proxy 1/(1 + distance of K from F) lies in (0, 1] and is 1 exactly at the forward |
| LiquidityProxies.DistanceFromProxy | python/qproc/internal/liquidity_proxy_computation.py:12 | the distance from the forward is recovered from the proxy as 1/p - 1 |
| LiquidityProxies.ProxyOrdersByDistance | python/qproc/internal/liquidity_proxy_computation.py:12 | a larger proxy means exactly a smaller distance from the forward |
| LiquidityProxies.ComputeLiquidityProxies | python/qproc/internal/liquidity_proxy_computation.py:6-13 | one proxy per strike, `LiquidityProxy` of the strike and the forward of its expiry: in (0, 1], equal to 1 exactly at that forward |
| LiquidityProxies.DescendingProxiesAscendingDistance | python/qproc/internal/liquidity_proxy_computation.py:12 | within one expiry, ranking by descending proxy is ranking by ascending distance from the forward |
| QuoteSurfaceConstruction.GetSidedPrices | python/qproc/internal/quote_surface_construction.py:22-33 | a two-column matrix gives one bid/ask pair per row; any other array one pair per entry |
| QuoteSurfaceConstruction.Interleave | python/qproc/internal/quote_surface_construction.py:60-61 | the pairs laid out row by row, two entries per row |
| QuoteSurfaceConstruction.InterleaveAt | python/qproc/internal/quote_surface_construction.py:60-61 | entry 2i is row i's bid and entry 2i+1 its ask |
| QuoteSurfaceConstruction.SidedPricesKeepEntries | python/qproc/internal/quote_surface_construction.py:22-33 | a sided matrix is read back entry for entry; otherwise each entry becomes bid = ask, whose mid is the entry |
| QuoteSurfaceConstruction.InterleavePairs | python/qproc/internal/quote_surface_construction.py:60-61 | pairs read from a row-major matrix interleave back to it |
| QuoteSurfaceConstruction.RowQuote | python/qproc/internal/quote_surface_construction.py:60-63 | row i's quote carries its bid, ask, strike and liquidity proxy |
| QuoteSurfaceConstruction.FillOutcomeOk | python/qproc/internal/quote_surface_construction.py:48-64 | the rows go through exactly when every array is long enough and the expiries ascend; with long enough arrays a failure is the ordering RuntimeError |
| QuoteSurfaceConstruction.FillOutcomeFrom | python/qproc/internal/quote_surface_construction.py:48-64 | the same from any row on which the prefix went through |
| QuoteSurfaceConstruction.SliceExpiries | python/qproc/internal/quote_surface_construction.py:53-58 | the distinct expiries met so far; the last is at least the last row's |
| QuoteSurfaceConstruction.SliceExpiriesAscending | python/qproc/internal/quote_surface_construction.py:50-58 | on ascending rows the slice expiries strictly ascend and the last is the last row's |
| QuoteSurfaceConstruction.SliceExpiriesCoverRows | python/qproc/internal/quote_surface_construction.py:53-58 | every row's expiry has its slice |
| QuoteSurfaceConstruction.SliceExpiriesFromRows | python/qproc/internal/quote_surface_construction.py:53-58 | every slice's expiry is some row's |
| QuoteSurfaceConstruction.RowsWithExpiry | python/qproc/internal/quote_surface_construction.py:48-64 | the quotes of the rows at one expiry are among the rows |
| QuoteSurfaceConstruction.SliceRowsSorted | python/qproc/internal/quote_surface_construction.py:64 | a slice's quotes, inserted by `insort_left`, are sorted by strike and are exactly the rows at its expiry |
| QuoteSurfaceConstruction.SliceRowsAbsent | python/qproc/internal/quote_surface_construction.py:53-58 | an expiry no row has has no quotes |
| QuoteSurfaceConstruction.FillStep | python/qproc/internal/quote_surface_construction.py:49-58 | a row with a new, larger expiry opens a new, empty slice; a row with the current expiry opens none |
| QuoteSurfaceConstruction.FillQuoteSurface | python/qproc/internal/quote_surface_construction.py:36-64 | the outcome is `FillOutcome`; on success the surface holds one slice per distinct expiry, in order, each with its rows sorted by strike, and as many quotes as rows |
| QuoteSurfaceConstruction.FillRow | python/qproc/internal/quote_surface_construction.py:49-64 | one loop turn: the ordering error, or the row's quote placed in the slice of its expiry |
| QuoteSurfaceConstruction.AscendingExtends | python/qproc/internal/quote_surface_construction.py:50 | a row not below the previous keeps the rows ascending |
| QuoteSurfaceConstruction.NewSlice | python/qproc/internal/quote_surface_construction.py:53-58 | a larger expiry makes a fresh, empty slice the surface's last |
| QuoteSurfaceConstruction.OpenSlice | python/qproc/internal/quote_surface_construction.py:58 | `add_slice` of a slice later than every slice appends it |
| QuoteSurfaceConstruction.PlaceRow | python/qproc/internal/quote_surface_construction.py:60-64 | the row's quote goes into the last slice by `insort_left`; the other slices stay |
| QuoteSurfaceConstruction.GetQuoteSurface | python/qproc/internal/quote_surface_construction.py:8-19 | succeeds exactly when the rows go through; then a fresh surface with the units given, one slice per distinct expiry holding its rows sorted by strike |
| OptionQuoteProcessing.FilterKindFor | python/qproc/internal/filter_factory.py:10-19 | `strike` builds the repricing filter and `discard` the discarding one; every other filter type, and only those, raises RuntimeError |
| OptionQuoteProcessing.SliceIndexFound | python/qproc/internal/quote_structures.py:110-115 | on expiries in ascending order, the `find_le` lookup of an expiry that occurs lands on a slice of exactly that expiry |
| OptionQuoteProcessing.TransformSliceQuotes | python/qproc/internal/option_quote_processor.py:246-255 | each quote of the slice is replaced by its conversion with the slice's expiry, forward and discount factor, positions and count kept |
| OptionQuoteProcessing.CopySurface | python/qproc/internal/option_quote_processor.py:240-243 | the deep copy is new slice objects, pairwise distinct, with the same expiries and quotes in the same order and the same units |
| OptionQuoteProcessing.TransformSlices | python/qproc/internal/option_quote_processor.py:245-255 | every slice of the list is converted with its own expiry's forward and discount factor |
| OptionQuoteProcessing.TransformQuoteSurface | python/qproc/internal/option_quote_processor.py:235-259 | every quote of every slice is converted and the surface is tagged with the target units; in place the surface object itself is rewritten, otherwise a fresh converted copy is returned and the input keeps its quotes and units |
| OptionQuoteProcessing.TransformQuoteSurfaceAsWritten | python/qproc/internal/option_quote_processor.py:235-259 | as written the call fails with AttributeError exactly when some slice holds a quote, converting nothing; only a surface without quotes is retagged |
| OptionQuoteProcessing.SetBound | python/qproc/internal/option_quote_processor.py:186-208 | the normalized-call bound of a recorded set at a strike fails exactly for a strike that is not positive; a lower bound is never negative |
| OptionQuoteProcessing.SetBoundsOrdered | python/qproc/internal/option_quote_processor.py:135-151 | on an arbitrage-free set the lower bound at a new strike never exceeds the upper bound |
| OptionQuoteProcessing.PriceBound | python/qproc/internal/option_quote_processor.py:167-181 | a bound in the caller's units fails exactly when the strike, converted to the surface's unit, is not positive; a normalized-call lower bound is never negative |
| OptionQuoteProcessing.CallBoundRoundTrip | python/qproc/internal/option_quote_processor.py:169-181 | converting a call-price bound at a plain strike back to a normalized call gives the set's own bound at moneyness K/F: the two conversions of `_compute_bound` undo each other |
| OptionQuoteProcessing.NormalizedCallBound | python/qproc/internal/option_quote_processor.py:186-208 | a scalar gives a scalar and an array an array of the same length, each entry the set's bound at that strike; it fails exactly when some strike is not positive |
| OptionQuoteProcessing.BoundsAt | python/qproc/internal/option_quote_processor.py:198-208 | the result holds, strike by strike, the bound the sorted set gives at that strike; it fails with a lookup failure exactly when some strike is not positive |
| OptionQuoteProcessing.TransformStrikes | python/qproc/internal/option_quote_processor.py:24-50 | a scalar stays a scalar and an array keeps its length, each strike converted on its own |
| OptionQuoteProcessing.SetPriceBounds | python/qproc/internal/option_quote_processor.py:169-181 | each bound is the price bound at its strike, the shape of the input is kept, and the call fails exactly when a converted strike is not positive |
| OptionQuoteProcessing.PriceBoundOfSetBound | python/qproc/internal/option_quote_processor.py:169-181 | a price bound is the set's bound at the converted strike, converted back to the caller's price unit |
| OptionQuoteProcessing.InternalQuoteProcessor.constructor | python/qproc/internal/option_quote_processor.py:19-21 | a new processor holds the surface and no filter |
| OptionQuoteProcessing.InternalQuoteProcessor.Filter | python/qproc/internal/option_quote_processor.py:118-133 | the surface ends in normalized calls at moneyness; an unknown filter type fails after the conversion with no filter built; otherwise the filter succeeds exactly when every converted slice filters, and then each slice holds the interior of its recorded set, in slice order |
| OptionQuoteProcessing.InternalQuoteProcessor.FilterAsWritten | python/qproc/internal/option_quote_processor.py:118-133 | as written every call fails and stores no filter: AttributeError exactly when the surface holds a quote, otherwise TypeError after the surface is retagged |
| OptionQuoteProcessing.RunFreshFilter | python/qproc/internal/option_quote_processor.py:133 | running a freshly built filter records only shaped sets; it succeeds exactly when every slice of the surface it was built over filters, and each slice then holds the interior of its own run |
| OptionQuoteProcessing.InternalQuoteProcessor.RunFilter | python/qproc/internal/option_quote_processor.py:128-133 | a fresh filter of the requested kind is stored, with the given smoothing parameter for every expiry, and run; it succeeds exactly when every slice filters, each slice then holding the interior of its recorded set |
| OptionQuoteProcessing.InternalQuoteProcessor.ComputeBoundAsWritten | python/qproc/internal/option_quote_processor.py:153-181 | as written: RuntimeError before `filter` or for an unknown expiry, and AttributeError for every other call |
| OptionQuoteProcessing.InternalQuoteProcessor.ComputeBound | python/qproc/internal/option_quote_processor.py:153-181 | RuntimeError before `filter` or for an unknown expiry; a result has the strikes' shape and each entry is the price bound from the set recorded for that expiry; on a sorted, fully filtered surface it succeeds whenever every converted strike is positive |
| OptionQuoteProcessing.InternalQuoteProcessor.SliceIndex | python/qproc/internal/quote_structures.py:110-115 | a found position holds a slice of exactly that expiry, and on expiry-sorted slices every quoted expiry is found |
| Interpolation.Size | python/numcomp/interpolation.py:7-11 | the element count of an array, 1 for a scalar |
| Interpolation.Interp | python/numcomp/interpolation.py:81-83 | numpy's `interp`: the first value left of the grid, the last value at or right of its end |
| Interpolation.Lerp | python/numcomp/interpolation.py:81-83 | the line through two data points passes through both |
| Interpolation.InterpHitsData | python/numcomp/interpolation.py:81-83 | on a strictly increasing grid the interpolant reproduces the data at every grid point |
| Interpolation.ExtrapolationMasks | python/numcomp/interpolation.py:52-61 | one mask per point, set exactly when the point lies left of the first or right of the last grid point |
| Interpolation.MaskedIffNotEnclosed | python/numcomp/interpolation.py:52-61 | on an ascending grid a point is masked exactly when no two grid points enclose it |
| Interpolation.CountTrue | python/numcomp/interpolation.py:44 | the count of set masks in a prefix never exceeds its length |
| Interpolation.NoneCounted | python/numcomp/interpolation.py:44-46 | a zero sum of the masks means no mask is set, so the interpolated values are returned untouched |
| Interpolation.Select | python/numcomp/interpolation.py:48 | `x[extra_masks]` holds one entry per set mask |
| Interpolation.SelectAt | python/numcomp/interpolation.py:48 | the selected entries are the masked points, in order: the k-th set mask's point is entry k |
| Interpolation.InternalInterpolator.Extrapolate | python/numcomp/interpolation.py:63-74 | a fresh array, one entry per point: NaN under NaN extrapolation; under flat extrapolation the last value right of the grid, the first value left of it |
| Interpolation.InternalInterpolator.Call | python/numcomp/interpolation.py:35-50 | a fresh array, one entry per point: the interpolated value inside the grid and the extrapolated value at every masked point |
| Interpolation.Scatter | python/numcomp/interpolation.py:48 | `y[masks] = values`: the k-th masked entry receives the k-th value and every other entry keeps its value |
| Interpolation.CountBelowTotal | python/numcomp/interpolation.py:48 | a masked entry's position among the masked entries lies below their total |
| Interpolation.NewInternalInterpolator | python/numcomp/interpolation.py:14-33 | construction succeeds exactly for linear interpolation, keeping the data and the extrapolation type; any other type raises RuntimeError |
| Interpolation.InsideKeepsInterpolant | python/numcomp/interpolation.py:35-50 | points inside the grid keep numpy's interpolated value |
| Interpolation.NanExactlyOutside | python/numcomp/interpolation.py:63-66 | under NaN extrapolation a result is NaN exactly at the points outside the grid |
| Interpolation.FlatAgreesWithInterp | python/numcomp/interpolation.py:68-74 | flat extrapolation continues the end values and so agrees with numpy's `interp` at every point of an ascending grid |
| FunctionalInterpolation.ComputeWeightsAsWritten | python/volsurface/internal/functional_interpolator.py:14-22 | as written the weights sum to 1 but put all the weight on the right function at the left end and on the left function at the right end |
| FunctionalInterpolation.ComputeWeights | python/volsurface/internal/functional_interpolator.py:14-22 | corrected weights: they sum to 1, reproduce x as the weighted mean of the bracket ends, give all the weight to the nearer end at either end, and lie in [0, 1] inside the bracket |
| FunctionalInterpolation.RightWeightWithin | python/volsurface/internal/functional_interpolator.py:20 | inside the bracket the fraction (x - xLeft)/(xRight - xLeft) lies in [0, 1] |
| FunctionalInterpolation.FunctionalInterpolator.GetIndices | python/volsurface/internal/functional_interpolator.py:56-65 | -1 exactly when every grid point lies below x; 0 left of the grid; an exact match's own index; otherwise the two neighbouring grid points that strictly bracket x |
| FunctionalInterpolation.FunctionalInterpolator.GetFunc | python/volsurface/internal/functional_interpolator.py:44-54 | with one function per grid point a function is always found; a single index selects its own function, -1 the last one; a position past the list is IndexError |
| FunctionalInterpolation.FunctionalInterpolator.GetFuncAsWritten | python/volsurface/internal/functional_interpolator.py:44-54 | as written it differs from the corrected lookup only between grid points |
| FunctionalInterpolation.IndicesAtGridPoint | python/volsurface/internal/functional_interpolator.py:56-63 | on a strictly increasing grid a grid point selects its own function |
| FunctionalInterpolation.BlendIsLerp | python/volsurface/internal/functional_interpolator.py:49-53 | the corrected blend of two values is the straight line between them through the bracket |
| FunctionalInterpolation.BracketBisectRight | python/volsurface/internal/functional_interpolator.py:57 | where x strictly brackets, `bisect_left` and `bisect_right` agree |
| FunctionalInterpolation.CallIsInterp | python/volsurface/internal/functional_interpolator.py:37-42 | on a strictly increasing grid, calling at (x, z) is numpy's `interp` in x of the functions' values at z: the reference definition the corrected interpolator meets everywhere |
| FunctionalInterpolation.CallInBracket | python/volsurface/internal/functional_interpolator.py:37-54 | between two grid points the call is the line between the two bracketing values |
| FunctionalInterpolation.AsWrittenMisweights | python/volsurface/internal/functional_interpolator.py:20 | on the grid (0, 1) with functions 0 and 1, the code as written returns 0.75 at x = 0.25 where linear interpolation gives 0.25 |
| Sorting.BisectLeft | python/volsurface/internal/functional_interpolator.py:57 | `bisect_left`: every element before the position is below x and the element at it is not |
| Sorting.BisectRight | python/numcomp/interpolation.py:82 | the right insertion point: no element before the position lies above x and the element at it does |
| Sorting.InsortLeft | python/qproc/internal/arbitrage_filter/arbitrage_free_set.py:31 | `insort_left` adds exactly the one element: one longer, same elements plus x |
| Sorting.InsortLeftSorted | python/qproc/internal/arbitrage_filter/arbitrage_free_set.py:31 | on a sorted list the element lands at its `bisect_left` position, the elements before it unmoved and those after it shifted by one, and the list stays sorted |
| Sorting.InsortLeftStrictlySorted | python/qproc/internal/arbitrage_filter/arbitrage_free_set.py:26-33 | inserting an element comparable to every element keeps a strictly increasing list strictly increasing |
| Sorting.InsortLeftAppends | python/qproc/internal/quote_structures.py:94-95 | an element above every element is appended at the end |
| Sorting.InsortRight | python/filter_implementation/quote_slice.py:26 | the step of the stable sort adds exactly the one element |
| Sorting.InsortRightSorted | python/filter_implementation/quote_slice.py:26 | the step of the stable sort keeps a sorted list sorted |
| Sorting.InsortRightAppends | python/filter_implementation/quote_slice.py:26 | an element no element lies above is appended at the end, so equal keys keep their order |
| Sorting.InsertionSort | python/filter_implementation/quote_slice.py:26 | `list.sort`: a permutation of the list of the same length |
| Sorting.InsertionSortSorted | python/filter_implementation/quote_slice.py:26 | `list.sort` under a strict weak order leaves the list sorted |
| Sorting.InsertionSortOfSorted | python/filter_implementation/quote_slice.py:225-228 | sorting a list that is already sorted leaves it as it is |
| Sorting.FindLt | python/qproc/internal/arbitrage_filter/arbitrage_free_set.py:48-49 | `find_lt`: the last position whose element lies below x, -1 if there is none |
| Sorting.FindGt | python/qproc/internal/arbitrage_filter/arbitrage_free_set.py:64-65 | `find_gt`: the first position whose element lies above x, -1 if there is none |
| Sorting.FindLe | python/qproc/internal/quote_structures.py:110-115 | `find_le`: the last position whose element does not lie above x, -1 if there is none |
| Sorting.Index | python/filter_implementation/quote_slice.py:273 | `index`: a position found holds an element equal to x, with every element before it below x; -1 exactly when the bisect_left position is past the end or holds an element not equal to x |
| Sorting.IndexAbsent | python/filter_implementation/quote_slice.py:273 | on a sorted list whose `==` is incomparability, `index` reports -1 exactly when no element equals x |
| Sorting.BisectLeftSameComparisons | python/qproc/internal/arbitrage_filter/arbitrage_free_set.py:48-49 | the lookups see an element only through comparisons: two probes that compare alike land at the same position |
| Sorting.BisectRightSameComparisons | python/qproc/internal/arbitrage_filter/arbitrage_free_set.py:64-65 | likewise for the right insertion point |

## Left out

- QuoteStructures.Quote.SetPrice, `FilterQuote.Adjust` and `QuoteTransformation.TransformQuote` act on quotes as values, in both lineages. So the model does not capture that the source updates a shared quote object in place: that the quote sitting in a slice, a ranking list and an arbitrage-free set at once changes everywhere, and that `transform_quote(in_place=True)` mutates its argument. The slice, surface, set and filter objects that hold quotes are classes.
- FilterForwardFilter.RetryFrom, `FilterForwardFilter.ForwardSafeguard` and `FilterSafeguard.StrikeSafeguard` model the `deepcopy` rollback of quote_surface.py and quote_slice.py by starting each attempt from the saved value. The aliasing between the restored copy and anything still referring to the old quotes is not captured.
- FilterForwardBounds.Infimum, `FilterForwardFilter.RetryFrom` and `FilterForwardFilter.FilterFrom` are functions over values. So the model does not capture the update in place of the surface-side loops in quote_surface.py: the max-accumulating infimum loop, the retry loop that bumps the first-ranked premium in place, and the appends to `filtered_slices_indices`. The slice-side loops (initial set, initial fill, adjusted fill, filtered list, safeguard attempts, final safeguard) do have method counterparts, in the `FilterQuoteSlice.QuoteSlice` class, proved equal to the functions.
- OptionQuoteProcessing.TransformQuoteSurface and `OptionQuoteProcessing.InternalQuoteProcessor.Filter` take the forward and the discount factor as functions of the expiry. The source reads `qs.forward` and `qs.discount_factor` from each slice, which `QuoteSlice` does not define. That code path is modelled separately as written, by `TransformQuoteSurfaceAsWritten` and `FilterAsWritten` (see Findings).
- FilterQuote.NewQuote and the `FilterQuoteSlice.QuoteSlice` constructor require a non-zero forward, so the ZeroDivisionError of `strike / forward` in quote.py is not modelled.
- QuoteTransformation.TransformStrike, `QuoteTransformation.TransformPrice` and `QuoteTransformation.TransformQuote` require `StrikeConvertible`/`PriceConvertible`: a non-zero forward for moneyness, a non-zero DF·F for normalized calls, and a non-zero expiry for total variance. So the ZeroDivisionError of those conversions is not modelled.
- The original lineage's bound and forward-filter functions require `PositiveTerms` (DF > 0 and F > 0). So zero or negative market data, and the ZeroDivisionError a zero forward or discount factor raises in quote_surface.py, are not modelled.
- ArbitrageFilters.StrikeFilter.constructor stores the smoothing parameter as an `Option`, where the source uses NaN for a missing λ. `ArbitrageFilters.StrikeFilter.Filter` and `OptionQuoteProcessing.InternalQuoteProcessor.Filter` require it to be present for the repricing filter (`SmoothingGiven`). So the NaN arithmetic of repricing without λ is not modelled.
- ArbitrageFilters.StrikeFilter.Filter models only a filter fresh from its constructor (no slice index yet); a second call on the same filter object is not modelled.
- Interpolation.InternalInterpolator.Call and `Interpolation.InternalInterpolator.Extrapolate` take arrays only, so the scalar path of interpolation.py's `__call__` (a float in, a float out) is not modelled.
- Non-linear interpolation types: `_get_interpolant` builds only linear interpolants and raises otherwise, and the model does the same. The cubic splines of other modules are not part of this model.
- FilterSafeguard.IsShuffle describes the numpy shuffles as an oracle that permutes a list, indexed by attempt. The source reseeds the global generator inside the strike safeguard, which the calendar safeguard calls inside its own attempt loop. The outer shuffles therefore depend on the inner draws. `FilterForwardFilter.ForwardSafeguard` fixes one oracle and does not capture that interplay.
- FilterForwardFilter.ForwardFilterForIndex states the infimum floor only outside the two safeguards: the final safeguard sets every premium to DF·F and the strike safeguard ignores earlier slices, so neither keeps it. For the first-ranked quote it is stated only when its moneyness is its strike over the forward and the infimum there does not exceed DF·F, since otherwise the truncated premium can lie above DF·F and the bumps then lower it.
- FilterQuoteSlice.QuoteSlice.FilterPass states the slice's state only on success. The partly filled set after a failed pass (an empty pending list, a failed lookup, or an infimum above the upper bound) is not stated, because every caller either discards it or restores a copy.
- FilterQuote.Candidates (distinct strikes, all positive) is not required by any operation: quote_slice.py and quote_surface.py accept duplicate and non-positive strikes, and the model lets the pending list and the set hold them. The source's lookups (`index`, `find_lt`, `find_gt`) then raise ValueError, which the model returns as `LookupFailed`. Distinctness appears only as a hypothesis of the lemmas and implications that say a lookup never fails and the set comes out strictly sorted (`FillSliceDistinct`, `InitialFillDistinct`, `AdjustedFillDistinct` and the `Candidates(...) ==>` clauses of `StrikeFilter`, `StrikeSafeguard`, `ForwardFilterForIndex` and `FilterQuoteSurface`).
- FilterFills.FillSlice, `FilterFills.StrikeFilter` and `FilterQuoteSlice.QuoteSlice.FilterInStrikeDimension` require the first-ranked quote to have a non-negative strike (`FirstStrikeNonNegative`); the calendar filter (`FilterForwardFilter.WellFormedInput`) requires every strike to be non-negative. A negative first-ranked strike would sit before the strike-0 quote and make the two-quote initial set unsorted, and in the calendar filter the final safeguard's repaired set would be unsorted, so `bisect` would search unsorted lists; that behaviour is not modelled.
- FilterFills.AdjustedFill reprices each pending quote as a value. When the pending list holds two quotes at the same strike, the source's `insort_left` and `list.remove` work by `==` on strike and may touch the other quote object; the model keeps each quote in its own place, so that aliasing is not captured.
- FilterQuoteSlice.QuoteSlice methods that end in `LookupFailed` leave the slice's fields unspecified beyond their frame: the source raises ValueError mid-loop and no caller catches it.
- FunctionalInterpolation.FunctionalInterpolator.GetFunc reports a bracket whose right index lies past the function list as IndexError at the lookup. functional_interpolator.py:53 returns a lambda that raises only when applied, so a caller that keeps the returned function without calling it is not modelled; `__call__` (functional_interpolator.py:41-42) raises the same IndexError either way.
- `compute_average_quote_adjustment` (quote_slice.py) is a reporting statistic that no filter reads; it is not modelled.
- The plotting methods of quote_slice.py and quote_surface.py, and `get_quotes` of option_quote_processor.py (a pandas DataFrame), are presentation and are not modelled.
- Black's formula, its inverse, `exp`, `log` and `sqrt` are parameters (`QuoteTransformation.Numerics`). Their properties enter only as hypotheses of the lemmas that need them.
- Floating point is modelled as exact real arithmetic. Where IEEE behaviour matters (the −0.0 slope and the NaN right candidate next to the +infinity quote), the model follows what Python's `max` does with those values.
- The forward and discount-factor curves (curve_construction.py), input checking and the package's public wrappers are not part of this model; forwards and discount factors are parameters.
- The `sorting_algorithms` module is not part of this model. `find_lt`, `find_gt`, `find_le` and `index` are specified in `Sorting` by how the filter uses them.
- ArbitrageFilters.StrikeFilter has no `compute_lower_bound(expiry, strike)`, which `_compute_bound` calls. The model reads the bound from the arbitrage-free set recorded for that expiry.

## Findings

| source | as written | input that shows it | evidently intended | confidence | as-written member | corrected member |
|---|---|---|---|---|---|---|
| python/qproc/internal/arbitrage_filter/arbitrage_filter.py:83 | a feasible quote is added with `self._current_a.add_quote(q)`, a method `ArbitrageFreeSet` does not define (also at :111), so the filter raises AttributeError on the first feasible quote | a fresh set and the quote at strike 1 with mid 0.5 | insert the quote into the set's sorted list, as `add_quote_if_feasible` does | not executed | ArbitrageFilters.AddQuoteIfFeasibleAsWritten, ArbitrageFilters.AsWrittenRejectsFeasibleQuote | ArbitrageFilters.StrikeFilter.AddQuoteIfFeasible |
| python/volsurface/internal/functional_interpolator.py:20 | `w_left = (x − x_left)/(x_right − x_left)`, so the left function gets weight 0 at x_left and 1 at x_right | grid [0, 1] with functions 0 and 1, at x = 0.25: the result is 0.75 | `w_left = (x_right − x)/(x_right − x_left)`, which makes the interpolator linear interpolation of the function values | not executed | FunctionalInterpolation.ComputeWeightsAsWritten, FunctionalInterpolation.AsWrittenMisweights | FunctionalInterpolation.ComputeWeights, FunctionalInterpolation.CallIsInterp |
| python/qproc/internal/option_quote_processor.py:172, :179-180 | `_compute_bound` reads `quote_slice.forward` (and, at :179, `quote_slice.discount_factor`), which `QuoteSlice` does not define, so every bound request after filtering raises AttributeError | any filtered surface and any quoted expiry | use the forward of the expiry | not executed | OptionQuoteProcessing.InternalQuoteProcessor.ComputeBoundAsWritten | OptionQuoteProcessing.InternalQuoteProcessor.ComputeBound, OptionQuoteProcessing.CallBoundRoundTrip |
| python/qproc/internal/option_quote_processor.py:253-254 | `transform_quote_surface` reads `qs.discount_factor` and `qs.forward`, which `QuoteSlice` does not define, so any surface with a quote raises AttributeError | a surface with one slice holding one quote | convert with the expiry's discount factor and forward | not executed | OptionQuoteProcessing.TransformQuoteSurfaceAsWritten | OptionQuoteProcessing.TransformQuoteSurface |
| python/qproc/internal/option_quote_processor.py:128-131 | `filter` passes `smoothing_param_grid=` to `create_filter`, whose signature has no such parameter, so every call that gets past the surface conversion raises TypeError | an empty surface and the `strike` filter type | build the filter with the smoothing parameter alone | not executed | OptionQuoteProcessing.InternalQuoteProcessor.FilterAsWritten | OptionQuoteProcessing.InternalQuoteProcessor.Filter |
