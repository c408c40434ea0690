/** The arbitrage-free set of the current lineage
    (python/qproc/internal/arbitrage_filter/arbitrage_free_set.py): normalized call quotes of one
    expiry kept sorted by strike between the synthetic quotes at strike 0 (price 1) and strike
    +infinity (price 0), with the no-arbitrage bounds a new strike must respect to be admitted. */
module ArbitrageFreeSets {
  import opened Common
  import opened Sorting
  import opened Arithmetic
  import opened QuoteStructures

  /** `QUOTE_0`: a normalized call struck at 0 is worth the (normalized) forward, 1. */
  const Quote0: Quote := Quote(1.0, 1.0, Finite(0.0), 0.0)

  /** `QUOTE_INF`: a call struck at +infinity is worthless. Its NaN liquidity proxy is never
      read and is modelled as 0. */
  const QuoteInf: Quote := Quote(0.0, 0.0, Infinity, 0.0)

  /** A strike strictly between the two synthetic quotes: the only strikes whose neighbours
      `find_lt` and `find_gt` can both find. */
  predicate IsInteriorStrike(k: Strike) {
    k.Finite? && k.value > 0.0
  }

  /** The shape `_sorted_quotes` keeps: synthetic quotes first and last, finite positive strikes
      in between, sorted by strike. */
  ghost predicate Shaped(s: seq<Quote>) {
    && |s| >= 2
    && s[0] == Quote0
    && s[|s| - 1] == QuoteInf
    && (forall i :: 0 < i < |s| - 1 ==> IsInteriorStrike(s[i].strike))
    && SortedBy(s, QuoteLess)
  }

  /** Secant slope between two quotes at finite, distinct strikes. */
  function DifferenceQuotient(a: Quote, b: Quote): real
    requires a.strike.Finite? && b.strike.Finite? && a.strike.value != b.strike.value
  {
    (a.Mid() - b.Mid()) / (a.strike.value - b.strike.value)
  }

  /** `_get_left_adjacent_quote` (`find_lt`): position of the nearest quote strictly left of `q`. */
  function LeftAdjacent(s: seq<Quote>, q: Quote): (i: nat)
    requires Shaped(s) && IsInteriorStrike(q.strike)
    ensures i < |s| - 1
    ensures StrikeLess(s[i].strike, q.strike) && !StrikeLess(s[i + 1].strike, q.strike)
    ensures s[i].strike.Finite?
  {
    FindLt(s, q, QuoteLess)
  }

  /** `_get_right_adjacent_quote` (`find_gt`): position of the nearest quote strictly right of `q`. */
  function RightAdjacent(s: seq<Quote>, q: Quote): (i: nat)
    requires Shaped(s) && IsInteriorStrike(q.strike)
    ensures 0 < i < |s|
    ensures StrikeLess(q.strike, s[i].strike)
    ensures forall j :: 0 <= j < i ==> !StrikeLess(q.strike, s[j].strike)
  {
    var i := FindGt(s, q, QuoteLess);
    assert QuoteLess(q, s[|s| - 1]);
    i
  }

  /** `_are_two_points_left_of_quote`. */
  predicate TwoPointsLeft(s: seq<Quote>, q: Quote)
    requires |s| >= 2
  {
    StrikeLess(s[1].strike, q.strike)
  }

  /** `_are_two_points_right_of_quote`. */
  predicate TwoPointsRight(s: seq<Quote>, q: Quote)
    requires |s| >= 2
  {
    StrikeLess(q.strike, s[|s| - 2].strike)
  }

  /** `_compute_left_difference_quotient`: slope through the two nearest quotes on the left, or
      -1 (the slope of the intrinsic value 1 - k) when only the strike-0 quote lies left. */
  function LeftDifferenceQuotient(s: seq<Quote>, q: Quote): real
    requires Shaped(s) && IsInteriorStrike(q.strike)
  {
    if TwoPointsLeft(s, q) then
      var first := LeftAdjacent(s, q);
      assert first > 0;
      var second := LeftAdjacent(s, s[first]);
      DifferenceQuotient(s[first], s[second])
    else
      -1.0
  }

  /** `_compute_right_difference_quotient`: slope through the two nearest quotes on the right,
      or 0 when only the +infinity quote lies right. Against the +infinity quote the source
      divides a finite number by -infinity, which is (negative) zero. */
  function RightDifferenceQuotient(s: seq<Quote>, q: Quote): real
    requires Shaped(s) && IsInteriorStrike(q.strike)
  {
    if TwoPointsRight(s, q) then
      var first := RightAdjacent(s, q);
      assert first < |s| - 1;
      var second := RightAdjacent(s, s[first]);
      if s[second].strike.Infinity? then 0.0 else DifferenceQuotient(s[first], s[second])
    else
      0.0
  }

  /** The line through (k0, m) with the given slope, evaluated at k. */
  function Line(m: real, slope: real, k0: real, k: real): real {
    m + slope * (k - k0)
  }

  /** `lower_bound_from_left_difference_quotient`: the left neighbour's mid extended along the
      left difference quotient to `q`'s strike, floored at 0. */
  function LeftCandidate(s: seq<Quote>, q: Quote): (c: real)
    requires Shaped(s) && IsInteriorStrike(q.strike)
    ensures c >= 0.0
  {
    var left := s[LeftAdjacent(s, q)];
    Max(Line(left.Mid(), LeftDifferenceQuotient(s, q), left.strike.value, q.strike.value), 0.0)
  }

  /** `lower_bound_from_right_difference_quotient`: the right neighbour's mid extended back along
      the right difference quotient. Against the +infinity quote the source computes
      0 - 0 * inf = NaN; that case has no value here. */
  function RightCandidate(s: seq<Quote>, q: Quote): Option<real>
    requires Shaped(s) && IsInteriorStrike(q.strike)
  {
    var right := s[RightAdjacent(s, q)];
    if right.strike.Infinity? then None
    else Some(Line(right.Mid(), RightDifferenceQuotient(s, q), right.strike.value, q.strike.value))
  }

  /** `compute_lower_bound`: the larger of the two candidates. Python's `max(x, nan)` returns x,
      so a missing right candidate leaves the left one. */
  function LowerBound(s: seq<Quote>, q: Quote): (lb: real)
    requires Shaped(s) && IsInteriorStrike(q.strike)
    ensures lb >= LeftCandidate(s, q) >= 0.0
    ensures RightCandidate(s, q).Some? ==> lb >= RightCandidate(s, q).value
  {
    match RightCandidate(s, q)
    case None => LeftCandidate(s, q)
    case Some(fromRight) => Max(LeftCandidate(s, q), fromRight)
  }

  /** `compute_upper_bound`: the chord between the two neighbours, or the left neighbour's mid
      when the right neighbour is the +infinity quote. */
  function UpperBound(s: seq<Quote>, q: Quote): (ub: real)
    requires Shaped(s) && IsInteriorStrike(q.strike)
  {
    var k := q.strike.value;
    var left := s[LeftAdjacent(s, q)];
    var right := s[RightAdjacent(s, q)];
    if right.strike.Finite? then
      Chord(left.strike.value, k, right.strike.value, left.Mid(), right.Mid())
    else
      left.Mid()
  }

  /** The interpolated call premium at k on the chord through (kL, mL) and (kR, mR). */
  function Chord(kL: real, k: real, kR: real, mL: real, mR: real): real
    requires kL < kR
  {
    ((kR - k) * mL + (k - kL) * mR) / (kR - kL)
  }

  /** `lower_bound <= q.mid() <= upper_bound`. */
  predicate Feasible(s: seq<Quote>, q: Quote)
    requires Shaped(s) && IsInteriorStrike(q.strike)
  {
    LowerBound(s, q) <= q.Mid() <= UpperBound(s, q)
  }

  /** The set of strikes held. */
  ghost predicate HasStrike(s: seq<Quote>, k: Strike) {
    exists i :: 0 <= i < |s| && s[i].strike == k
  }

  // ---------------------------------------------------------------------------------------
  // The no-arbitrage invariant

  /** Slope of the segment from s[i] to s[i + 1], extended by -1 to the left of strike 0
      (i = -1) and equal to 0 on the segment that ends at the +infinity quote. */
  function Slope(s: seq<Quote>, i: int): real
    requires Shaped(s) && StrictlySortedBy(s, QuoteLess)
    requires -1 <= i <= |s| - 2
  {
    if i == -1 then -1.0
    else if s[i + 1].strike.Infinity? then 0.0
    else DifferenceQuotient(s[i + 1], s[i])
  }

  /** The admitted mids, read as a call price curve with the price 1 at strike 0 and 0 at
      +infinity, are convex and non-increasing and never negative: slopes are non-decreasing,
      start at -1 (the intrinsic bound) and end at 0, and the last finite mid is at least 0. */
  ghost predicate ArbitrageFree(s: seq<Quote>) {
    && Shaped(s)
    && StrictlySortedBy(s, QuoteLess)
    && (forall i, j :: -1 <= i < j <= |s| - 2 ==> Slope(s, i) <= Slope(s, j))
    && s[|s| - 2].Mid() >= 0.0
  }

  lemma StrictlySortedIsSorted(s: seq<Quote>)
    requires StrictlySortedBy(s, QuoteLess)
    ensures SortedBy(s, QuoteLess)
  {
    forall i, j | 0 <= i < j < |s|
      ensures !QuoteLess(s[j], s[i])
    {
      StrikeTrichotomy(s[i].strike, s[j].strike);
    }
  }

  /** The set a fresh `ArbitrageFreeSet` starts from is free of arbitrage. */
  lemma FreshSetIsArbitrageFree()
    ensures ArbitrageFree([Quote0, QuoteInf])
  {
    var s := [Quote0, QuoteInf];
    assert Slope(s, -1) == -1.0 && Slope(s, 0) == 0.0;
  }

  /** On the two synthetic quotes alone, every strike 0 < k < infinity has lower bound
      max(1 - k, 0) (the intrinsic value of a normalized call) and upper bound 1. */
  lemma FreshSetBounds(q: Quote)
    requires IsInteriorStrike(q.strike)
    ensures Shaped([Quote0, QuoteInf])
    ensures LowerBound([Quote0, QuoteInf], q) == Max(1.0 - q.strike.value, 0.0)
    ensures UpperBound([Quote0, QuoteInf], q) == 1.0
  {
    var s := [Quote0, QuoteInf];
    assert LeftAdjacent(s, q) == 0;
    assert RightAdjacent(s, q) == 1;
    assert LeftDifferenceQuotient(s, q) == -1.0;
  }

  /** `q` falls in the gap between s[j - 1] and s[j]. */
  ghost predicate InGap(s: seq<Quote>, q: Quote, j: int) {
    && 0 < j < |s|
    && StrikeLess(s[j - 1].strike, q.strike)
    && StrikeLess(q.strike, s[j].strike)
  }

  /** A strike that is not held falls in the gap in front of its `find_gt` position. */
  lemma GapOfNewStrike(s: seq<Quote>, q: Quote)
    requires Shaped(s) && StrictlySortedBy(s, QuoteLess) && IsInteriorStrike(q.strike)
    requires !HasStrike(s, q.strike)
    ensures InGap(s, q, RightAdjacent(s, q))
  {
    var j := RightAdjacent(s, q);
    StrikeTrichotomy(s[j - 1].strike, q.strike);
    assert s[j - 1].strike != q.strike;
  }

  /** In the gap in front of position j, `find_lt` returns j - 1, and `find_gt` and
      `bisect_left` (the insertion point of `insort_left`) return j. */
  lemma GapNeighbours(s: seq<Quote>, q: Quote, j: int)
    requires Shaped(s) && StrictlySortedBy(s, QuoteLess) && IsInteriorStrike(q.strike)
    requires InGap(s, q, j)
    ensures LeftAdjacent(s, q) == j - 1
    ensures RightAdjacent(s, q) == j
    ensures BisectLeft(s, q, QuoteLess) == j
  {
  }

  /** The neighbours of a held interior quote are the quotes next to it. */
  lemma HeldNeighbours(s: seq<Quote>, i: int)
    requires Shaped(s) && StrictlySortedBy(s, QuoteLess)
    requires 0 < i < |s| - 1
    ensures LeftAdjacent(s, s[i]) == i - 1
    ensures RightAdjacent(s, s[i]) == i + 1
  {
    assert QuoteLess(s[i - 1], s[i]) && QuoteLess(s[i], s[i + 1]);
  }

  /** In the gap in front of j, the left difference quotient is the slope of the segment left of
      s[j - 1], and the right difference quotient that of the segment right of s[j]. */
  lemma DifferenceQuotientsAreSlopes(s: seq<Quote>, q: Quote, j: int)
    requires Shaped(s) && StrictlySortedBy(s, QuoteLess) && IsInteriorStrike(q.strike)
    requires InGap(s, q, j)
    ensures LeftDifferenceQuotient(s, q) == Slope(s, j - 2)
    ensures j <= |s| - 2 ==> RightDifferenceQuotient(s, q) == Slope(s, j)
  {
    LeftDifferenceQuotientIsSlope(s, q, j);
    if j <= |s| - 2 {
      RightDifferenceQuotientIsSlope(s, q, j);
    }
  }

  /** The left half of `DifferenceQuotientsAreSlopes`. */
  lemma LeftDifferenceQuotientIsSlope(s: seq<Quote>, q: Quote, j: int)
    requires Shaped(s) && StrictlySortedBy(s, QuoteLess) && IsInteriorStrike(q.strike)
    requires InGap(s, q, j)
    ensures LeftDifferenceQuotient(s, q) == Slope(s, j - 2)
  {
    GapNeighbours(s, q, j);
    if TwoPointsLeft(s, q) {
      assert j - 1 > 0;
      HeldNeighbours(s, j - 1);
    } else {
      assert j == 1;
    }
  }

  /** The right half of `DifferenceQuotientsAreSlopes`. */
  lemma RightDifferenceQuotientIsSlope(s: seq<Quote>, q: Quote, j: int)
    requires Shaped(s) && StrictlySortedBy(s, QuoteLess) && IsInteriorStrike(q.strike)
    requires InGap(s, q, j) && j <= |s| - 2
    ensures RightDifferenceQuotient(s, q) == Slope(s, j)
  {
    GapNeighbours(s, q, j);
    assert TwoPointsRight(s, q);
    HeldNeighbours(s, j);
    if s[j + 1].strike.Finite? {
      var a, b := s[j], s[j + 1];
      DivNegNeg(a.Mid() - b.Mid(), a.strike.value - b.strike.value);
      assert -(a.Mid() - b.Mid()) == b.Mid() - a.Mid();
      assert -(a.strike.value - b.strike.value) == b.strike.value - a.strike.value;
    }
  }

  /** Across one finite segment, the next mid is the previous one moved along the slope. */
  lemma SlopeStep(s: seq<Quote>, i: int)
    requires Shaped(s) && StrictlySortedBy(s, QuoteLess)
    requires 0 <= i <= |s| - 3
    ensures s[i + 1].Mid() == s[i].Mid() + Slope(s, i) * (s[i + 1].strike.value - s[i].strike.value)
  {
    assert QuoteLess(s[i], s[i + 1]);
    DivMul(s[i + 1].Mid() - s[i].Mid(), s[i + 1].strike.value - s[i].strike.value);
  }

  /** The admitted mids do not increase with the strike. */
  lemma {:induction false} MidsNonIncreasing(s: seq<Quote>, i: int, j: int)
    requires ArbitrageFree(s)
    requires 0 <= i <= j <= |s| - 2
    ensures s[j].Mid() <= s[i].Mid()
    decreases j - i
  {
    if i < j {
      MidsNonIncreasing(s, i + 1, j);
      SlopeStep(s, i);
      assert Slope(s, i) <= Slope(s, |s| - 2) == 0.0;
      assert QuoteLess(s[i], s[i + 1]);
      StepDoesNotRise(s[i].strike.value, s[i + 1].strike.value, s[i].Mid(), s[i + 1].Mid(), Slope(s, i));
    }
  }

  /** Every admitted mid is at least the intrinsic value 1 - k of a normalized call. */
  lemma {:induction false} MidsAboveIntrinsic(s: seq<Quote>, i: int)
    requires ArbitrageFree(s)
    requires 0 <= i <= |s| - 2
    ensures s[i].Mid() >= 1.0 - s[i].strike.value
  {
    if i > 0 {
      MidsAboveIntrinsic(s, i - 1);
      SlopeStep(s, i - 1);
      assert Slope(s, -1) <= Slope(s, i - 1);
      assert QuoteLess(s[i - 1], s[i]);
      StepStaysAbove(s[i - 1].strike.value, s[i].strike.value, s[i - 1].Mid(), s[i].Mid(), Slope(s, i - 1), -1.0);
    }
  }

  /** Every admitted quote's mid lies between the static no-arbitrage limits of a normalized
      call: max(1 - k, 0) <= mid <= 1. */
  lemma AdmittedMidsInRange(s: seq<Quote>, i: int)
    requires ArbitrageFree(s)
    requires 0 < i < |s| - 1
    ensures Max(1.0 - s[i].strike.value, 0.0) <= s[i].Mid() <= 1.0
  {
    MidsNonIncreasing(s, 0, i);
    MidsNonIncreasing(s, i, |s| - 2);
    MidsAboveIntrinsic(s, i);
  }

  /** In the gap in front of j, the left candidate extends s[j - 1] along the slope of the
      segment to its left. */
  lemma LeftCandidateFromSlope(s: seq<Quote>, q: Quote, j: int)
    requires Shaped(s) && StrictlySortedBy(s, QuoteLess) && IsInteriorStrike(q.strike)
    requires InGap(s, q, j)
    ensures LeftCandidate(s, q) == Max(Line(s[j - 1].Mid(), Slope(s, j - 2), s[j - 1].strike.value, q.strike.value), 0.0)
  {
    GapNeighbours(s, q, j);
    DifferenceQuotientsAreSlopes(s, q, j);
  }

  /** In the gap in front of j, the right candidate exists iff s[j] is finite. */
  lemma RightCandidateExists(s: seq<Quote>, q: Quote, j: int)
    requires Shaped(s) && StrictlySortedBy(s, QuoteLess) && IsInteriorStrike(q.strike)
    requires InGap(s, q, j)
    ensures s[j].strike.Infinity? <==> RightCandidate(s, q).None?
    ensures s[j].strike.Finite? ==> j <= |s| - 2
  {
    GapNeighbours(s, q, j);
  }

  /** In the gap in front of a finite s[j], the right candidate extends s[j] back along the slope
      of the segment to its right. */
  lemma RightCandidateFromSlope(s: seq<Quote>, q: Quote, j: int)
    requires Shaped(s) && StrictlySortedBy(s, QuoteLess) && IsInteriorStrike(q.strike)
    requires InGap(s, q, j) && j <= |s| - 2
    ensures RightCandidate(s, q) == Some(Line(s[j].Mid(), Slope(s, j), s[j].strike.value, q.strike.value))
  {
    assert IsInteriorStrike(s[j].strike);
    GapNeighbours(s, q, j);
    DifferenceQuotientsAreSlopes(s, q, j);
  }

  /** In the gap in front of j, the upper bound is the chord between s[j - 1] and s[j], or the
      mid of s[j - 1] when s[j] is the +infinity quote. */
  lemma UpperBoundFromNeighbours(s: seq<Quote>, q: Quote, j: int)
    requires Shaped(s) && StrictlySortedBy(s, QuoteLess) && IsInteriorStrike(q.strike)
    requires InGap(s, q, j)
    ensures s[j].strike.Infinity? ==> UpperBound(s, q) == s[j - 1].Mid()
    ensures s[j].strike.Finite? ==>
              UpperBound(s, q) == Chord(s[j - 1].strike.value, q.strike.value, s[j].strike.value, s[j - 1].Mid(), s[j].Mid())
  {
    GapNeighbours(s, q, j);
  }

  /** `L` and `R` are quotes at finite strikes with `k` strictly between them. */
  predicate Around(L: Quote, k: real, R: Quote) {
    L.strike.Finite? && R.strike.Finite? && L.strike.value < k < R.strike.value
  }

  /** The chord between two non-negative mids dominates the floored left secant extension when
      the left slope is at most the chord's slope. */
  lemma ChordAboveLeftCandidate(L: Quote, k: real, R: Quote, sLeft: real)
    requires Around(L, k, R) && L.Mid() >= 0.0 && R.Mid() >= 0.0
    requires sLeft <= DifferenceQuotient(R, L)
    ensures Max(Line(L.Mid(), sLeft, L.strike.value, k), 0.0)
              <= Chord(L.strike.value, k, R.strike.value, L.Mid(), R.Mid())
  {
    ChordIsLine(L, k, R);
    MulLeq(sLeft, DifferenceQuotient(R, L), k - L.strike.value);
    ChordNonNegative(L, k, R);
  }

  /** The chord is the line from the left quote with the chord's slope. */
  lemma ChordIsLine(L: Quote, k: real, R: Quote)
    requires Around(L, k, R)
    ensures Chord(L.strike.value, k, R.strike.value, L.Mid(), R.Mid())
              == Line(L.Mid(), DifferenceQuotient(R, L), L.strike.value, k)
  {
    ChordAsSecant(L.strike.value, k, R.strike.value, L.Mid(), R.Mid());
  }

  /** Between two non-negative mids the chord is non-negative. */
  lemma ChordNonNegative(L: Quote, k: real, R: Quote)
    requires Around(L, k, R) && L.Mid() >= 0.0 && R.Mid() >= 0.0
    ensures Chord(L.strike.value, k, R.strike.value, L.Mid(), R.Mid()) >= 0.0
  {
    var kL, kR := L.strike.value, R.strike.value;
    MulLeq(0.0, L.Mid(), kR - k);
    MulLeq(0.0, R.Mid(), k - kL);
    DivAtLeast((kR - k) * L.Mid() + (k - kL) * R.Mid(), kR - kL, 0.0);
  }

  /** The chord dominates the right secant extension when the right slope is at least the chord's
      slope. */
  lemma ChordAboveRightCandidate(L: Quote, k: real, R: Quote, sRight: real)
    requires Around(L, k, R)
    requires DifferenceQuotient(R, L) <= sRight
    ensures Line(R.Mid(), sRight, R.strike.value, k) <= Chord(L.strike.value, k, R.strike.value, L.Mid(), R.Mid())
  {
    var kL, kR, mL, mR := L.strike.value, R.strike.value, L.Mid(), R.Mid();
    var sigma := DifferenceQuotient(R, L);
    ChordAsSecant(kL, k, kR, mL, mR);
    DivMul(mR - mL, kR - kL);
    assert Chord(kL, k, kR, mL, mR) == mR - sigma * (kR - k);
    MulLeq(sigma, sRight, kR - k);
  }

  /** Without a finite right neighbour, a non-positive left slope keeps the floored left secant
      extension below the left mid. */
  lemma LeftMidAboveLeftCandidate(L: Quote, k: real, sLeft: real)
    requires L.strike.Finite? && L.strike.value < k && L.Mid() >= 0.0 && sLeft <= 0.0
    ensures Max(Line(L.Mid(), sLeft, L.strike.value, k), 0.0) <= L.Mid()
  {
    var d := k - L.strike.value;
    MulLeq(sLeft, 0.0, d);
    assert sLeft * d <= 0.0;
    assert Line(L.Mid(), sLeft, L.strike.value, k) == L.Mid() + sLeft * d;
  }

  /** On an arbitrage-free set the two bounds at a strike not yet held are ordered, so there is
      always a feasible price to move an infeasible quote to. */
  lemma BoundsOrdered(s: seq<Quote>, q: Quote)
    requires ArbitrageFree(s) && IsInteriorStrike(q.strike) && !HasStrike(s, q.strike)
    ensures LowerBound(s, q) <= UpperBound(s, q)
  {
    GapOfNewStrike(s, q);
    var j: int := RightAdjacent(s, q);
    assert Slope(s, j - 2) <= Slope(s, j - 1);
    MidsNonIncreasing(s, j - 1, |s| - 2);
    if j <= |s| - 2 {
      assert Slope(s, j - 1) <= Slope(s, j);
      MidsNonIncreasing(s, j, |s| - 2);
    }
    BoundsOrderedAtGap(s, q, j);
  }

  /** The local facts `BoundsOrdered` needs: the three slopes around the gap are ordered and the
      neighbouring mids are non-negative. */
  lemma BoundsOrderedAtGap(s: seq<Quote>, q: Quote, j: int)
    requires Shaped(s) && StrictlySortedBy(s, QuoteLess) && IsInteriorStrike(q.strike)
    requires InGap(s, q, j)
    requires Slope(s, j - 2) <= Slope(s, j - 1) && s[j - 1].Mid() >= 0.0
    requires j <= |s| - 2 ==> Slope(s, j - 1) <= Slope(s, j) && s[j].Mid() >= 0.0
    ensures LowerBound(s, q) <= UpperBound(s, q)
  {
    LeftCandidateFromSlope(s, q, j);
    RightCandidateExists(s, q, j);
    UpperBoundFromNeighbours(s, q, j);
    if s[j].strike.Finite? {
      RightCandidateFromSlope(s, q, j);
      ChordAboveLeftCandidate(s[j - 1], q.strike.value, s[j], Slope(s, j - 2));
      ChordAboveRightCandidate(s[j - 1], q.strike.value, s[j], Slope(s, j));
    } else {
      LeftMidAboveLeftCandidate(s[j - 1], q.strike.value, Slope(s, j - 2));
    }
    LowerBoundAtMost(s, q, UpperBound(s, q));
  }

  /** The lower bound is below any value that both candidates are below. */
  lemma LowerBoundAtMost(s: seq<Quote>, q: Quote, u: real)
    requires Shaped(s) && IsInteriorStrike(q.strike)
    requires LeftCandidate(s, q) <= u
    requires RightCandidate(s, q).Some? ==> RightCandidate(s, q).value <= u
    ensures LowerBound(s, q) <= u
  {
  }

  // ---------------------------------------------------------------------------------------
  // Admission keeps the set free of arbitrage, and the bounds are exact

  /** For L left of Q: the secant slope from L to Q is at least (at most) c exactly when Q's mid
      is on or above (below) the line through L with slope c. */
  lemma LeftSecant(L: Quote, Q: Quote, c: real)
    requires L.strike.Finite? && Q.strike.Finite? && L.strike.value < Q.strike.value
    ensures DifferenceQuotient(Q, L) >= c <==> Q.Mid() >= Line(L.Mid(), c, L.strike.value, Q.strike.value)
    ensures DifferenceQuotient(Q, L) <= c <==> Q.Mid() <= Line(L.Mid(), c, L.strike.value, Q.strike.value)
  {
    var d := Q.strike.value - L.strike.value;
    DivMul(Q.Mid() - L.Mid(), d);
    if DifferenceQuotient(Q, L) >= c {
      MulLeq(c, DifferenceQuotient(Q, L), d);
    }
    if DifferenceQuotient(Q, L) <= c {
      MulLeq(DifferenceQuotient(Q, L), c, d);
    }
    if Q.Mid() >= Line(L.Mid(), c, L.strike.value, Q.strike.value) {
      DivAtLeast(Q.Mid() - L.Mid(), d, c);
    }
    if Q.Mid() <= Line(L.Mid(), c, L.strike.value, Q.strike.value) {
      DivAtMost(Q.Mid() - L.Mid(), d, c);
    }
  }

  /** For R right of Q: the secant slope from Q to R is at most (at least) c exactly when Q's mid
      is on or above (below) the line through R with slope c. */
  lemma RightSecant(Q: Quote, R: Quote, c: real)
    requires Q.strike.Finite? && R.strike.Finite? && Q.strike.value < R.strike.value
    ensures DifferenceQuotient(R, Q) <= c <==> Q.Mid() >= Line(R.Mid(), c, R.strike.value, Q.strike.value)
    ensures DifferenceQuotient(R, Q) >= c <==> Q.Mid() <= Line(R.Mid(), c, R.strike.value, Q.strike.value)
  {
    var d := R.strike.value - Q.strike.value;
    assert c * (Q.strike.value - R.strike.value) == -(c * d);
    DivMul(R.Mid() - Q.Mid(), d);
    if DifferenceQuotient(R, Q) >= c {
      MulLeq(c, DifferenceQuotient(R, Q), d);
    }
    if DifferenceQuotient(R, Q) <= c {
      MulLeq(DifferenceQuotient(R, Q), c, d);
    }
    if Q.Mid() >= Line(R.Mid(), c, R.strike.value, Q.strike.value) {
      DivAtMost(R.Mid() - Q.Mid(), d, c);
    }
    if Q.Mid() <= Line(R.Mid(), c, R.strike.value, Q.strike.value) {
      DivAtLeast(R.Mid() - Q.Mid(), d, c);
    }
  }

  /** The chord is also the line back from the right quote with the chord's slope. */
  lemma ChordIsRightLine(L: Quote, k: real, R: Quote)
    requires Around(L, k, R)
    ensures Chord(L.strike.value, k, R.strike.value, L.Mid(), R.Mid())
              == Line(R.Mid(), DifferenceQuotient(R, L), R.strike.value, k)
  {
    var kL, kR, mL, mR := L.strike.value, R.strike.value, L.Mid(), R.Mid();
    ChordAsSecant(kL, k, kR, mL, mR);
    DivMul(mR - mL, kR - kL);
  }

  /** Slope of the new segment from s[j - 1] to `q`. */
  function NewLeftSlope(s: seq<Quote>, q: Quote, j: int): real
    requires Shaped(s) && IsInteriorStrike(q.strike) && InGap(s, q, j)
  {
    DifferenceQuotient(q, s[j - 1])
  }

  /** Slope of the new segment from `q` to s[j]: 0 when s[j] is the +infinity quote. */
  function NewRightSlope(s: seq<Quote>, q: Quote, j: int): real
    requires Shaped(s) && IsInteriorStrike(q.strike) && InGap(s, q, j)
  {
    if s[j].strike.Infinity? then 0.0 else DifferenceQuotient(s[j], q)
  }

  /** What placing `q` in the gap in front of j asks of it: a non-negative mid, and the two new
      segments' slopes fitting between the slopes of the segments around the gap. */
  ghost predicate FitsGap(s: seq<Quote>, q: Quote, j: int)
    requires Shaped(s) && StrictlySortedBy(s, QuoteLess) && IsInteriorStrike(q.strike) && InGap(s, q, j)
  {
    && q.Mid() >= 0.0
    && Slope(s, j - 2) <= NewLeftSlope(s, q, j)
    && NewLeftSlope(s, q, j) <= NewRightSlope(s, q, j)
    && (j <= |s| - 2 ==> NewRightSlope(s, q, j) <= Slope(s, j))
  }

  /** The lower bound is exactly the first two slope conditions (and a non-negative mid). */
  lemma LowerBoundIffSlopes(s: seq<Quote>, q: Quote, j: int)
    requires Shaped(s) && StrictlySortedBy(s, QuoteLess) && IsInteriorStrike(q.strike)
    requires InGap(s, q, j)
    ensures LowerBound(s, q) <= q.Mid() <==>
              && q.Mid() >= 0.0
              && Slope(s, j - 2) <= NewLeftSlope(s, q, j)
              && (j <= |s| - 2 ==> NewRightSlope(s, q, j) <= Slope(s, j))
  {
    LeftCandidateFromSlope(s, q, j);
    RightCandidateExists(s, q, j);
    LeftSecant(s[j - 1], q, Slope(s, j - 2));
    if j <= |s| - 2 {
      assert IsInteriorStrike(s[j].strike);
      RightCandidateFromSlope(s, q, j);
      RightSecant(q, s[j], Slope(s, j));
    }
  }

  /** The upper bound is exactly the middle slope condition. */
  lemma UpperBoundIffSlopes(s: seq<Quote>, q: Quote, j: int)
    requires Shaped(s) && StrictlySortedBy(s, QuoteLess) && IsInteriorStrike(q.strike)
    requires InGap(s, q, j)
    ensures q.Mid() <= UpperBound(s, q) <==> NewLeftSlope(s, q, j) <= NewRightSlope(s, q, j)
  {
    UpperBoundFromNeighbours(s, q, j);
    if s[j].strike.Finite? {
      ChordIsLine(s[j - 1], q.strike.value, s[j]);
      ChordIsRightLine(s[j - 1], q.strike.value, s[j]);
      LeftSecant(s[j - 1], q, DifferenceQuotient(s[j], s[j - 1]));
      RightSecant(q, s[j], DifferenceQuotient(s[j], s[j - 1]));
    } else {
      LeftSecant(s[j - 1], q, 0.0);
    }
  }

  /** Feasibility is exactly fitting the gap. */
  lemma FeasibleIffFitsGap(s: seq<Quote>, q: Quote, j: int)
    requires Shaped(s) && StrictlySortedBy(s, QuoteLess) && IsInteriorStrike(q.strike)
    requires InGap(s, q, j)
    ensures Feasible(s, q) <==> FitsGap(s, q, j)
  {
    LowerBoundIffSlopes(s, q, j);
    UpperBoundIffSlopes(s, q, j);
  }

  /** Inserting a new strike in its gap keeps the strict order, at the `insort_left` position. */
  lemma InsertedOrder(s: seq<Quote>, q: Quote, j: int)
    requires Shaped(s) && StrictlySortedBy(s, QuoteLess) && IsInteriorStrike(q.strike)
    requires InGap(s, q, j)
    ensures InsortLeft(s, q, QuoteLess) == s[..j] + [q] + s[j..]
    ensures StrictlySortedBy(s[..j] + [q] + s[j..], QuoteLess)
  {
    GapNeighbours(s, q, j);
    QuoteLessIsStrictWeakOrder(s + [q]);
    forall i | 0 <= i < |s|
      ensures QuoteLess(s[i], q) || QuoteLess(q, s[i])
    {
      if i < j {
        assert i == j - 1 || QuoteLess(s[i], s[j - 1]);
      } else {
        assert i == j || QuoteLess(s[j], s[i]);
      }
    }
    InsortLeftStrictlySorted(s, q, QuoteLess);
  }

  /** Inserting a new strike keeps the shape and the strict order, at the `insort_left` position. */
  lemma InsertedShape(s: seq<Quote>, q: Quote, j: int)
    requires Shaped(s) && StrictlySortedBy(s, QuoteLess) && IsInteriorStrike(q.strike)
    requires InGap(s, q, j)
    ensures InsortLeft(s, q, QuoteLess) == s[..j] + [q] + s[j..]
    ensures StrictlySortedBy(s[..j] + [q] + s[j..], QuoteLess)
    ensures Shaped(s[..j] + [q] + s[j..])
  {
    InsertedOrder(s, q, j);
    var r := s[..j] + [q] + s[j..];
    StrictlySortedIsSorted(r);
    assert r[0] == s[0] && r[|r| - 1] == s[|s| - 1];
    forall i | 0 < i < |r| - 1
      ensures IsInteriorStrike(r[i].strike)
    {
      if i < j {
        assert r[i] == s[i];
      } else if i > j {
        assert r[i] == s[i - 1];
      }
    }
  }

  /** Each slope of the set with `q` inserted in the gap in front of j: the old slopes left and
      right of the gap, and the two new segments at it. */
  lemma InsertedSlope(s: seq<Quote>, q: Quote, j: int, r: seq<Quote>, i: int)
    requires Shaped(s) && StrictlySortedBy(s, QuoteLess) && IsInteriorStrike(q.strike)
    requires InGap(s, q, j)
    requires r == s[..j] + [q] + s[j..] && Shaped(r) && StrictlySortedBy(r, QuoteLess)
    requires -1 <= i <= |r| - 2
    ensures i <= j - 2 ==> Slope(r, i) == Slope(s, i)
    ensures i == j - 1 ==> Slope(r, i) == NewLeftSlope(s, q, j)
    ensures i == j ==> Slope(r, i) == NewRightSlope(s, q, j)
    ensures i >= j + 1 ==> Slope(r, i) == Slope(s, i - 1)
  {
    if 0 <= i <= j - 2 {
      assert r[i] == s[i] && r[i + 1] == s[i + 1];
    } else if i == j - 1 {
      assert r[i] == s[j - 1] && r[i + 1] == q;
    } else if i == j {
      assert r[i] == q && r[i + 1] == s[j];
    } else if i >= j + 1 {
      assert r[i] == s[i - 1] && r[i + 1] == s[i];
    }
  }

  /** With `q` fitting the gap, the slopes after insertion are still non-decreasing. */
  lemma InsertedSlopesMonotone(s: seq<Quote>, q: Quote, j: int, r: seq<Quote>)
    requires ArbitrageFree(s) && IsInteriorStrike(q.strike)
    requires InGap(s, q, j) && FitsGap(s, q, j)
    requires r == s[..j] + [q] + s[j..] && Shaped(r) && StrictlySortedBy(r, QuoteLess)
    ensures forall a, b :: -1 <= a < b <= |r| - 2 ==> Slope(r, a) <= Slope(r, b)
  {
    forall a, b | -1 <= a < b <= |r| - 2
      ensures Slope(r, a) <= Slope(r, b)
    {
      InsertedSlope(s, q, j, r, a);
      InsertedSlope(s, q, j, r, b);
      if a <= j - 2 && b <= j {
        assert Slope(s, a) <= Slope(s, j - 2) || a == j - 2;
      } else if a >= j - 1 && a <= j && b >= j + 1 {
        assert Slope(s, j) <= Slope(s, b - 1) || b - 1 == j;
      }
    }
  }

  /** Slope conditions read back from an arbitrage-free result. */
  lemma InsertedFitsGap(s: seq<Quote>, q: Quote, j: int, r: seq<Quote>)
    requires Shaped(s) && StrictlySortedBy(s, QuoteLess) && IsInteriorStrike(q.strike)
    requires InGap(s, q, j)
    requires r == s[..j] + [q] + s[j..] && ArbitrageFree(r)
    ensures FitsGap(s, q, j)
  {
    InsertedSlope(s, q, j, r, j - 2);
    InsertedSlope(s, q, j, r, j - 1);
    InsertedSlope(s, q, j, r, j);
    assert Slope(r, j - 2) <= Slope(r, j - 1) <= Slope(r, j);
    if j <= |s| - 2 {
      InsertedSlope(s, q, j, r, j + 1);
      assert Slope(r, j) <= Slope(r, j + 1);
    }
    assert r[j] == q;
    MidsNonIncreasing(r, j, |r| - 2);
  }

  /** The bounds are exact: a quote at a strike not yet held is feasible if and only if adding
      it with `insort_left` leaves the set free of arbitrage. */
  lemma FeasibleIffInsertionArbitrageFree(s: seq<Quote>, q: Quote)
    requires ArbitrageFree(s) && IsInteriorStrike(q.strike) && !HasStrike(s, q.strike)
    ensures Feasible(s, q) <==> ArbitrageFree(InsortLeft(s, q, QuoteLess))
  {
    GapOfNewStrike(s, q);
    var j: int := RightAdjacent(s, q);
    InsertedShape(s, q, j);
    var r := s[..j] + [q] + s[j..];
    FeasibleIffFitsGap(s, q, j);
    if Feasible(s, q) {
      InsertedSlopesMonotone(s, q, j, r);
      if j <= |s| - 2 {
        assert r[|r| - 2] == s[|s| - 2];
      } else {
        assert r[|r| - 2] == q;
      }
    }
    if ArbitrageFree(r) {
      InsertedFitsGap(s, q, j, r);
    }
  }

  // ---------------------------------------------------------------------------------------
  // Removing an admitted quote, and why a rejected quote stays rejected

  /** Removing an interior quote keeps the shape and the strict order. */
  lemma RemovedShape(s: seq<Quote>, i: int)
    requires Shaped(s) && StrictlySortedBy(s, QuoteLess) && 0 < i < |s| - 1
    ensures var r := s[..i] + s[i + 1..];
            Shaped(r) && StrictlySortedBy(r, QuoteLess)
  {
    var r := s[..i] + s[i + 1..];
    forall a | 0 <= a < |r|
      ensures r[a] == s[if a < i then a else a + 1]
    {
    }
    assert r[0] == s[0] && r[|r| - 1] == s[|s| - 1];
    StrictlySortedIsSorted(r);
  }

  /** The slopes after removing s[i]: the old ones away from it, shifted by one right of it. */
  lemma RemovedSlope(s: seq<Quote>, i: int, r: seq<Quote>, m: int)
    requires Shaped(s) && StrictlySortedBy(s, QuoteLess) && 0 < i < |s| - 1
    requires r == s[..i] + s[i + 1..] && Shaped(r) && StrictlySortedBy(r, QuoteLess)
    requires -1 <= m <= |r| - 2
    ensures m <= i - 2 ==> Slope(r, m) == Slope(s, m)
    ensures m >= i ==> Slope(r, m) == Slope(s, m + 1)
  {
    if 0 <= m <= i - 2 {
      assert r[m] == s[m] && r[m + 1] == s[m + 1];
    } else if m >= i {
      assert r[m] == s[m + 1] && r[m + 1] == s[m + 2];
    }
  }

  /** The slope of the segment that replaces the two around s[i] lies between their slopes. */
  lemma MergedSlope(s: seq<Quote>, i: int, r: seq<Quote>)
    requires Shaped(s) && StrictlySortedBy(s, QuoteLess) && 0 < i < |s| - 1
    requires r == s[..i] + s[i + 1..] && Shaped(r) && StrictlySortedBy(r, QuoteLess)
    requires Slope(s, i - 1) <= Slope(s, i)
    ensures Slope(s, i - 1) <= Slope(r, i - 1) <= Slope(s, i)
  {
    assert r[i - 1] == s[i - 1] && r[i] == s[i + 1];
    if s[i + 1].strike.Finite? {
      assert QuoteLess(s[i - 1], s[i]) && QuoteLess(s[i], s[i + 1]);
      MergedQuotient(s[i - 1], s[i], s[i + 1]);
    }
  }

  /** Difference quotients of three finite quotes in strike order, as `MergedSlope` needs them. */
  lemma MergedQuotient(a: Quote, b: Quote, c: Quote)
    requires a.strike.Finite? && b.strike.Finite? && c.strike.Finite?
    requires a.strike.value < b.strike.value < c.strike.value
    requires DifferenceQuotient(b, a) <= DifferenceQuotient(c, b)
    ensures DifferenceQuotient(b, a) <= DifferenceQuotient(c, a) <= DifferenceQuotient(c, b)
  {
    MergedSlopeBetween(a.strike.value, b.strike.value, c.strike.value, a.Mid(), b.Mid(), c.Mid());
  }

  /** Removing an admitted quote from an arbitrage-free set leaves it arbitrage-free: the two
      segments around the quote merge into their secant, whose slope lies between theirs. */
  lemma RemoveKeepsArbitrageFree(s: seq<Quote>, i: int)
    requires ArbitrageFree(s) && 0 < i < |s| - 1
    ensures ArbitrageFree(s[..i] + s[i + 1..])
  {
    var r := s[..i] + s[i + 1..];
    RemovedShape(s, i);
    assert Slope(s, i - 1) <= Slope(s, i);
    MergedSlope(s, i, r);
    forall a, b | -1 <= a < b <= |r| - 2
      ensures Slope(r, a) <= Slope(r, b)
    {
      RemovedSlope(s, i, r, a);
      RemovedSlope(s, i, r, b);
      if b <= i - 2 {
      } else if a <= i - 2 && b == i - 1 {
        assert Slope(s, a) <= Slope(s, i - 1);
      } else if a <= i - 2 {
        assert Slope(s, a) <= Slope(s, b + 1);
      } else if a == i - 1 {
        assert Slope(s, i) <= Slope(s, b + 1) || b == i;
      } else {
        assert Slope(s, a + 1) <= Slope(s, b + 1);
      }
    }
    if i == |s| - 2 {
      assert r[|r| - 2] == s[i - 1];
      MidsNonIncreasing(s, i - 1, |s| - 2);
    } else {
      assert r[|r| - 2] == s[|s| - 2];
    }
  }

  /** Two strictly sorted lists holding the same quotes are the same list. */
  lemma {:induction false} StrictlySortedUnique(x: seq<Quote>, y: seq<Quote>)
    requires StrictlySortedBy(x, QuoteLess) && StrictlySortedBy(y, QuoteLess)
    requires multiset(x) == multiset(y)
    ensures x == y
    decreases |x|
  {
    assert |x| == |multiset(x)| == |multiset(y)| == |y|;
    if x != [] {
      FirstOfStrictlySorted(x, y);
      assert x == [x[0]] + x[1..] && y == [y[0]] + y[1..];
      assert multiset(x[1..]) == multiset(x) - multiset{x[0]};
      assert multiset(y[1..]) == multiset(y) - multiset{y[0]};
      StrictlySortedUnique(x[1..], y[1..]);
    }
  }

  /** Two strictly sorted lists holding the same quotes start with the same quote. */
  lemma FirstOfStrictlySorted(x: seq<Quote>, y: seq<Quote>)
    requires StrictlySortedBy(x, QuoteLess) && StrictlySortedBy(y, QuoteLess)
    requires x != [] && multiset(x) == multiset(y)
    ensures y != [] && x[0] == y[0]
  {
    assert x[0] in multiset(y) && y[0] in multiset(x);
    var k :| 0 <= k < |y| && y[k] == x[0];
    var m :| 0 <= m < |x| && x[m] == y[0];
    if k > 0 && m > 0 {
      assert QuoteLess(y[0], y[k]) && QuoteLess(x[0], x[m]);
      StrikeTrichotomy(x[0].strike, y[0].strike);
    }
  }

  /** Where an admitted quote sits: strictly between the synthetic quotes. */
  lemma PositionOfAdmitted(y: seq<Quote>, p: Quote) returns (i: int)
    requires Shaped(y) && IsInteriorStrike(p.strike) && p in multiset(y)
    ensures 0 < i < |y| - 1 && y[i] == p
  {
    assert p in y;
    i :| 0 <= i < |y| && y[i] == p;
  }

  /** Taking an admitted quote `p` out of an arbitrage-free set leaves an arbitrage-free set
      holding the other quotes. */
  lemma RemoveAdmitted(y: seq<Quote>, p: Quote) returns (z: seq<Quote>)
    requires ArbitrageFree(y) && IsInteriorStrike(p.strike) && p in multiset(y)
    ensures ArbitrageFree(z) && multiset(z) == multiset(y) - multiset{p}
  {
    var i := PositionOfAdmitted(y, p);
    RemoveKeepsArbitrageFree(y, i);
    z := y[..i] + y[i + 1..];
    MultisetWithout(y, i);
  }

  /** Leaving out one entry takes it out of the multiset. */
  lemma MultisetWithout(y: seq<Quote>, i: int)
    requires 0 <= i < |y|
    ensures multiset(y[..i] + y[i + 1..]) == multiset(y) - multiset{y[i]}
  {
    assert y == y[..i] + [y[i]] + y[i + 1..];
  }

  /** Taking an admitted quote `p` back out: if the set with `p` and then `q` added is
      arbitrage-free, so is the set with only `q` added. */
  lemma WithoutAdmittedQuote(a: seq<Quote>, p: Quote, q: Quote)
    requires Shaped(a) && StrictlySortedBy(a, QuoteLess)
    requires IsInteriorStrike(p.strike) && IsInteriorStrike(q.strike)
    requires !HasStrike(a, q.strike)
    requires ArbitrageFree(InsortLeft(InsortLeft(a, p, QuoteLess), q, QuoteLess))
    ensures ArbitrageFree(InsortLeft(a, q, QuoteLess))
  {
    InsortOfNewStrike(a, q);
    DropAdmitted(InsortLeft(InsortLeft(a, p, QuoteLess), q, QuoteLess), p,
                 InsortLeft(a, q, QuoteLess));
  }

  /** An arbitrage-free list `y` less its admitted interior quote `p` holds the same quotes as
      the strictly sorted `w`, which is therefore arbitrage-free too. */
  lemma DropAdmitted(y: seq<Quote>, p: Quote, w: seq<Quote>)
    requires ArbitrageFree(y) && IsInteriorStrike(p.strike) && p in multiset(y)
    requires StrictlySortedBy(w, QuoteLess) && multiset(w) == multiset(y) - multiset{p}
    ensures ArbitrageFree(w)
  {
    var z := RemoveAdmitted(y, p);
    ArbitrageFreeOfSameQuotes(z, w);
  }

  /** Arbitrage-freedom depends only on which quotes a strictly sorted list holds. */
  lemma ArbitrageFreeOfSameQuotes(z: seq<Quote>, w: seq<Quote>)
    requires ArbitrageFree(z) && StrictlySortedBy(w, QuoteLess)
    requires multiset(z) == multiset(w)
    ensures ArbitrageFree(w)
  {
    StrictlySortedUnique(z, w);
  }

  /** Inserting a quote at a strike not yet held keeps the list strictly sorted. */
  lemma InsortOfNewStrike(a: seq<Quote>, q: Quote)
    requires Shaped(a) && StrictlySortedBy(a, QuoteLess)
    requires IsInteriorStrike(q.strike) && !HasStrike(a, q.strike)
    ensures StrictlySortedBy(InsortLeft(a, q, QuoteLess), QuoteLess)
  {
    GapOfNewStrike(a, q);
    InsertedShape(a, q, RightAdjacent(a, q));
  }

  /** A quote rejected by an arbitrage-free set stays rejected once another quote is admitted:
      were it feasible afterwards, removing the admitted quote again would leave it feasible
      before. */
  lemma InfeasibleAfterAdmission(a: seq<Quote>, p: Quote, q: Quote)
    requires ArbitrageFree(a)
    requires IsInteriorStrike(p.strike) && !HasStrike(a, p.strike) && Feasible(a, p)
    requires IsInteriorStrike(q.strike) && !HasStrike(a, q.strike) && !Feasible(a, q)
    requires p.strike != q.strike
    ensures ArbitrageFree(InsortLeft(a, p, QuoteLess))
    ensures !HasStrike(InsortLeft(a, p, QuoteLess), q.strike)
    ensures !Feasible(InsortLeft(a, p, QuoteLess), q)
  {
    FeasibleIffInsertionArbitrageFree(a, p);
    var a' := InsortLeft(a, p, QuoteLess);
    HasStrikeAfterInsort(a, p, q.strike);
    FeasibleIffInsertionArbitrageFree(a', q);
    FeasibleIffInsertionArbitrageFree(a, q);
    if Feasible(a', q) {
      WithoutAdmittedQuote(a, p, q);
    }
  }

  /** Inserting any quote at an interior strike keeps the shape: the synthetic quotes stay first
      and last. */
  lemma InsortKeepsShape(s: seq<Quote>, q: Quote)
    requires Shaped(s) && IsInteriorStrike(q.strike)
    ensures 0 < BisectLeft(s, q, QuoteLess) < |s|
    ensures Shaped(InsortLeft(s, q, QuoteLess))
  {
    var p := BisectLeft(s, q, QuoteLess);
    assert QuoteLess(s[0], q) && !QuoteLess(s[|s| - 1], q);
    QuoteLessIsStrictWeakOrder(s + [q]);
    InsortLeftSorted(s, q, QuoteLess);
    var r := InsortLeft(s, q, QuoteLess);
    assert r == s[..p] + [q] + s[p..];
    assert r[0] == s[0] && r[|r| - 1] == s[|s| - 1];
    forall i | 0 < i < |r| - 1
      ensures IsInteriorStrike(r[i].strike)
    {
      if i < p {
        assert r[i] == s[i];
      } else if i > p {
        assert r[i] == s[i - 1];
      }
    }
  }

  /** The bounds at a quote depend on its strike only, not on its prices or liquidity. */
  lemma BoundsDependOnStrikeOnly(s: seq<Quote>, q: Quote, q': Quote)
    requires Shaped(s) && IsInteriorStrike(q.strike) && q'.strike == q.strike
    ensures LowerBound(s, q') == LowerBound(s, q)
    ensures UpperBound(s, q') == UpperBound(s, q)
  {
    NeighboursDependOnStrikeOnly(s, q, q');
  }

  /** The neighbours of a quote depend on its strike only. */
  lemma NeighboursDependOnStrikeOnly(s: seq<Quote>, q: Quote, q': Quote)
    requires Shaped(s) && IsInteriorStrike(q.strike) && q'.strike == q.strike
    ensures LeftAdjacent(s, q') == LeftAdjacent(s, q)
    ensures RightAdjacent(s, q') == RightAdjacent(s, q)
  {
    BisectLeftSameComparisons(s, q, q', QuoteLess);
    BisectRightSameComparisons(s, q, q', QuoteLess);
  }

  /** The strikes held after an insertion are those held before and the new one. */
  lemma HasStrikeAfterInsort(s: seq<Quote>, q: Quote, k: Strike)
    ensures HasStrike(InsortLeft(s, q, QuoteLess), k) <==> HasStrike(s, k) || q.strike == k
  {
    var r := InsortLeft(s, q, QuoteLess);
    if HasStrike(r, k) {
      var i :| 0 <= i < |r| && r[i].strike == k;
      assert r[i] in multiset(r);
    }
    if HasStrike(s, k) {
      var i :| 0 <= i < |s| && s[i].strike == k;
      assert s[i] in multiset(s);
      assert s[i] in multiset(r);
    }
    if q.strike == k {
      assert q in multiset(r);
    }
  }

  /** Python's `s[1:-1]`: all but the first and the last element; empty on shorter lists. */
  function InteriorQuotes(s: seq<Quote>): seq<Quote> {
    if |s| < 2 then [] else s[1..|s| - 1]
  }

  /** How many of the quotes sit at strike k. */
  function StrikeCount(s: seq<Quote>, k: Strike): (r: nat)
    ensures r <= |s|
  {
    if s == [] then 0 else (if s[0].strike == k then 1 else 0) + StrikeCount(s[1..], k)
  }

  /** Counts add up over a concatenation. */
  lemma {:induction false} StrikeCountOfConcat(x: seq<Quote>, y: seq<Quote>, k: Strike)
    ensures StrikeCount(x + y, k) == StrikeCount(x, k) + StrikeCount(y, k)
    decreases |x|
  {
    if x != [] {
      assert (x + y)[1..] == x[1..] + y;
      StrikeCountOfConcat(x[1..], y, k);
    } else {
      assert x + y == y;
    }
  }

  /** A strike no quote sits at is counted zero times. */
  lemma {:induction false} StrikeCountAbsent(s: seq<Quote>, k: Strike)
    requires forall i :: 0 <= i < |s| ==> s[i].strike != k
    ensures StrikeCount(s, k) == 0
    decreases |s|
  {
    if s != [] {
      StrikeCountAbsent(s[1..], k);
    }
  }

  /** Inserting a quote counts its strike once more and leaves every other count alone. */
  lemma StrikeCountAfterInsort(s: seq<Quote>, q: Quote, k: Strike)
    ensures StrikeCount(InsortLeft(s, q, QuoteLess), k)
            == StrikeCount(s, k) + (if q.strike == k then 1 else 0)
  {
    var p := BisectLeft(s, q, QuoteLess);
    assert InsortLeft(s, q, QuoteLess) == s[..p] + ([q] + s[p..]);
    assert s == s[..p] + s[p..];
    StrikeCountOfConcat(s[..p], [q] + s[p..], k);
    StrikeCountOfConcat([q], s[p..], k);
    StrikeCountOfConcat(s[..p], s[p..], k);
  }

  /** Taking out the quote at k takes out one copy of it. */
  lemma RemoveAt(y: seq<Quote>, k: int)
    requires 0 <= k < |y|
    ensures multiset(y[..k] + y[k + 1..]) == multiset(y) - multiset{y[k]}
  {
    assert y == y[..k] + [y[k]] + y[k + 1..];
  }

  /** Taking out the quote at j takes one off the count of its strike. */
  lemma StrikeCountRemoveAt(y: seq<Quote>, j: int, k: Strike)
    requires 0 <= j < |y|
    ensures StrikeCount(y, k) == StrikeCount(y[..j] + y[j + 1..], k) + (if y[j].strike == k then 1 else 0)
  {
    assert y == y[..j] + ([y[j]] + y[j + 1..]);
    StrikeCountOfConcat(y[..j], [y[j]] + y[j + 1..], k);
    StrikeCountOfConcat([y[j]], y[j + 1..], k);
    StrikeCountOfConcat(y[..j], y[j + 1..], k);
  }

  /** Lists holding the same quotes hold every strike equally often. */
  lemma {:induction false} StrikeCountOfPermutation(x: seq<Quote>, y: seq<Quote>, k: Strike)
    requires multiset(x) == multiset(y)
    ensures StrikeCount(x, k) == StrikeCount(y, k)
    decreases |x|
  {
    if x != [] {
      assert x[0] in multiset(y);
      var j :| 0 <= j < |y| && y[j] == x[0];
      var rest := y[..j] + y[j + 1..];
      RemoveAt(y, j);
      assert x == [x[0]] + x[1..];
      assert multiset(x[1..]) == multiset(rest);
      StrikeCountOfPermutation(x[1..], rest, k);
      StrikeCountRemoveAt(y, j, k);
    }
  }

  /** `ArbitrageFreeSet`: the admitted quotes of one expiry, synthetic quotes included. */
  class ArbitrageFreeSet {
    var sortedQuotes: seq<Quote>

    /** The shape every operation keeps. */
    ghost predicate Valid()
      reads this
    {
      Shaped(sortedQuotes)
    }

    /** A fresh set holds only the two synthetic quotes, and is free of arbitrage. */
    constructor ()
      ensures sortedQuotes == [Quote0, QuoteInf]
      ensures Valid() && ArbitrageFree(sortedQuotes)
    {
      sortedQuotes := [Quote0, QuoteInf];
      FreshSetIsArbitrageFree();
    }

    /** `get_arbitrage_free_quotes`: all quotes, or (Python slice `[1:-1]`) all but the first
        and the last. */
    function GetArbitrageFreeQuotes(excludeStrikes0AndInf: bool): (r: seq<Quote>)
      reads this
      ensures !excludeStrikes0AndInf ==> r == sortedQuotes
      ensures excludeStrikes0AndInf && Valid() ==> [Quote0] + r + [QuoteInf] == sortedQuotes
      ensures excludeStrikes0AndInf && Valid() ==> forall i :: 0 <= i < |r| ==> IsInteriorStrike(r[i].strike)
      ensures excludeStrikes0AndInf && |sortedQuotes| < 2 ==> r == []
    {
      if !excludeStrikes0AndInf then sortedQuotes else InteriorQuotes(sortedQuotes)
    }

    /** `compute_lower_bound`; the lookups raise ValueError at a strike that is not interior. */
    function ComputeLowerBound(q: Quote): (r: Result<real>)
      reads this
      requires Valid()
      ensures r.Err? <==> !IsInteriorStrike(q.strike)
      ensures r.Err? ==> r.error == LookupFailed
      ensures r.Ok? ==> r.value == LowerBound(sortedQuotes, q) && r.value >= 0.0
    {
      if IsInteriorStrike(q.strike) then Ok(LowerBound(sortedQuotes, q)) else Err(LookupFailed)
    }

    /** `compute_upper_bound`; the lookups raise ValueError at a strike that is not interior. */
    function ComputeUpperBound(q: Quote): (r: Result<real>)
      reads this
      requires Valid()
      ensures r.Err? <==> !IsInteriorStrike(q.strike)
      ensures r.Err? ==> r.error == LookupFailed
      ensures r.Ok? ==> r.value == UpperBound(sortedQuotes, q)
    {
      if IsInteriorStrike(q.strike) then Ok(UpperBound(sortedQuotes, q)) else Err(LookupFailed)
    }

    /** `add_quote_if_feasible`: admits `q` with `insort_left` exactly when its mid lies within
        the bounds, and reports whether it did. On a set free of arbitrage, admitting a new
        strike keeps it free of arbitrage. */
    method AddQuoteIfFeasible(q: Quote) returns (r: Result<bool>)
      requires Valid()
      modifies this
      ensures Valid()
      ensures r.Err? <==> !IsInteriorStrike(q.strike)
      ensures r.Err? ==> r.error == LookupFailed && sortedQuotes == old(sortedQuotes)
      ensures r.Ok? ==> (r.value <==> Feasible(old(sortedQuotes), q))
      ensures r == Ok(true) ==> sortedQuotes == InsortLeft(old(sortedQuotes), q, QuoteLess)
      ensures r == Ok(false) ==> sortedQuotes == old(sortedQuotes)
      ensures old(ArbitrageFree(sortedQuotes)) && !HasStrike(old(sortedQuotes), q.strike) ==>
                ArbitrageFree(sortedQuotes)
    {
      var lowerBound :- ComputeLowerBound(q);
      // the same lookups as for the lower bound, so they succeed too
      var upperBound := ComputeUpperBound(q).value;
      var isQuoteFeasible := lowerBound <= q.Mid() <= upperBound;
      if isQuoteFeasible {
        if ArbitrageFree(sortedQuotes) && !HasStrike(sortedQuotes, q.strike) {
          FeasibleIffInsertionArbitrageFree(sortedQuotes, q);
        }
        InsortKeepsShape(sortedQuotes, q);
        sortedQuotes := InsortLeft(sortedQuotes, q, QuoteLess);
      }
      r := Ok(isQuoteFeasible);
    }

    /** The `add_quote` the filter calls (not defined by the source class): the unconditional
        sorted insertion `add_quote_if_feasible` performs. A feasible quote at a new strike
        keeps the set free of arbitrage. */
    method AddQuote(q: Quote)
      requires Valid() && IsInteriorStrike(q.strike)
      modifies this
      ensures Valid()
      ensures sortedQuotes == InsortLeft(old(sortedQuotes), q, QuoteLess)
      ensures old(ArbitrageFree(sortedQuotes) && !HasStrike(sortedQuotes, q.strike) && Feasible(sortedQuotes, q)) ==>
                ArbitrageFree(sortedQuotes)
    {
      if ArbitrageFree(sortedQuotes) && !HasStrike(sortedQuotes, q.strike) {
        FeasibleIffInsertionArbitrageFree(sortedQuotes, q);
      }
      InsortKeepsShape(sortedQuotes, q);
      sortedQuotes := InsortLeft(sortedQuotes, q, QuoteLess);
    }
  }
}
