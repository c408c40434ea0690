/** The quote of the original filter implementation
    (Arbitrage_Based_Filtering_of_Option_Price_Data/filter_implementation/quote.py): a discounted
    call premium at one strike and expiry, its implied volatility, the quantity that ranks its
    importance, and the record of the last adjustment the filter made to it. */
module FilterQuote {
  import opened Sorting

  /** `implied_vol_for_discounted_option` for a call: (premium, forward, strike, expiry, discount
      factor) to implied volatility. Jäckel's solver is a foreign numeric routine; it is passed in. */
  type VolSolver = (real, real, real, real, real) -> real

  datatype Quote = Quote(
    strike: real,
    expiry: real,
    impliedVol: real,
    callPremium: real,
    moneyness: real,
    rankingQuantity: real,
    isAdjusted: bool,
    adjustmentCallPremium: real,
    adjustmentImpliedVol: real)

  /** No adjustment recorded yet. */
  predicate Unadjusted(q: Quote) {
    !q.isAdjusted && q.adjustmentCallPremium == 0.0 && q.adjustmentImpliedVol == 0.0
  }

  /** The fields `adjust` never touches: the contract and its ranking. */
  predicate SameContract(a: Quote, b: Quote) {
    a.strike == b.strike && a.expiry == b.expiry && a.moneyness == b.moneyness
    && a.rankingQuantity == b.rankingQuantity
  }

  /** `Quote.__init__`: moneyness is the strike over the forward, and nothing is adjusted yet. */
  function NewQuote(strike: real, expiry: real, impliedVol: real, callPremium: real,
                    rankingQuantity: real, forward: real): (q: Quote)
    requires forward != 0.0
    ensures q.moneyness * forward == strike
    ensures q.strike == strike && q.expiry == expiry && q.rankingQuantity == rankingQuantity
    ensures q.callPremium == callPremium && q.impliedVol == impliedVol
    ensures Unadjusted(q)
  {
    Quote(strike, expiry, impliedVol, callPremium, strike / forward, rankingQuantity, false, 0.0, 0.0)
  }

  /** `adjust`: the premium becomes `newPremium`, the volatility is re-implied from it, and the
      changes of both are recorded, so the old values can be read back from the new quote. */
  function Adjust(q: Quote, newPremium: real, forward: real, discountFactor: real,
                  solver: VolSolver): (r: Quote)
    ensures r.callPremium == newPremium && r.isAdjusted
    ensures r.callPremium - r.adjustmentCallPremium == q.callPremium
    ensures r.impliedVol == solver(newPremium, forward, q.strike, q.expiry, discountFactor)
    ensures r.impliedVol - r.adjustmentImpliedVol == q.impliedVol
    ensures SameContract(q, r)
  {
    var newVol := solver(newPremium, forward, q.strike, q.expiry, discountFactor);
    q.(adjustmentCallPremium := newPremium - q.callPremium,
       callPremium := newPremium,
       adjustmentImpliedVol := newVol - q.impliedVol,
       impliedVol := newVol,
       isAdjusted := true)
  }

  /** `Quote.__lt__`: quotes are ordered by strike only. */
  predicate QuoteLess(a: Quote, b: Quote) {
    a.strike < b.strike
  }

  /** `Quote.__eq__`: quotes compare equal when their strikes do. */
  predicate QuoteEq(a: Quote, b: Quote) {
    a.strike == b.strike
  }

  /** The key of `sort(key=lambda x: x.ranking_quantity)`. */
  predicate RankLess(a: Quote, b: Quote) {
    a.rankingQuantity < b.rankingQuantity
  }

  lemma QuoteLessIsStrictWeakOrder()
    ensures StrictWeakOrder(QuoteLess)
  {
    forall a: Quote, b: Quote, c: Quote
      ensures OrderedTriple(a, b, c, QuoteLess)
    {
    }
  }

  lemma RankLessIsStrictWeakOrder()
    ensures StrictWeakOrder(RankLess)
  {
    forall a: Quote, b: Quote, c: Quote
      ensures OrderedTriple(a, b, c, RankLess)
    {
    }
  }

  /** `QuoteSlice.__init__`'s `sort(key=lambda x: x.ranking_quantity)`: the same quotes, in
      ascending ranking quantity. */
  function RankSorted(quotes: seq<Quote>): (r: seq<Quote>)
    ensures multiset(r) == multiset(quotes) && |r| == |quotes|
    ensures forall i, j :: 0 <= i < j < |r| ==> r[i].rankingQuantity <= r[j].rankingQuantity
  {
    RankLessIsStrictWeakOrder();
    InsertionSortSorted(quotes, RankLess);
    InsertionSort(quotes, RankLess)
  }

  /** Adjusting quotes never moves them in a strike-sorted list: the order only sees strikes. */
  lemma AdjustKeepsStrikeOrder(s: seq<Quote>, i: int, newPremium: real, forward: real,
                               discountFactor: real, solver: VolSolver)
    requires 0 <= i < |s|
    ensures var r := s[i := Adjust(s[i], newPremium, forward, discountFactor, solver)];
            (StrictlySortedBy(s, QuoteLess) ==> StrictlySortedBy(r, QuoteLess))
            && Strikes(r) == Strikes(s)
  {
    var r := s[i := Adjust(s[i], newPremium, forward, discountFactor, solver)];
    assert forall j :: 0 <= j < |s| ==> r[j].strike == s[j].strike;
  }

  /** The strikes of a list of quotes, in list order. */
  function Strikes(s: seq<Quote>): (r: seq<real>)
    ensures |r| == |s|
    ensures forall i :: 0 <= i < |s| ==> r[i] == s[i].strike
  {
    seq(|s|, i requires 0 <= i < |s| => s[i].strike)
  }

  lemma StrikesOfConcat(a: seq<Quote>, b: seq<Quote>)
    ensures Strikes(a + b) == Strikes(a) + Strikes(b)
  {
  }

  /** The position of the first quote of `s` at strike `k`. */
  function IndexOfStrike(s: seq<Quote>, k: real): (i: nat)
    requires HasStrike(s, k)
    ensures i < |s| && s[i].strike == k
    ensures forall j :: 0 <= j < i ==> s[j].strike != k
  {
    if s[0].strike == k then 0
    else
      var j :| 0 <= j < |s| && s[j].strike == k;
      assert s[1..][j - 1].strike == k;
      1 + IndexOfStrike(s[1..], k)
  }

  /** `list.remove(q)`: drops the first quote equal to `q`, that is, with the same strike. */
  function RemoveQuote(s: seq<Quote>, q: Quote): (r: seq<Quote>)
    requires HasStrike(s, q.strike)
    ensures |r| == |s| - 1
    ensures var i := IndexOfStrike(s, q.strike); r == s[..i] + s[i + 1..]
  {
    if s[0].strike == q.strike then s[1..]
    else
      var j :| 0 <= j < |s| && s[j].strike == q.strike;
      assert s[1..][j - 1].strike == q.strike;
      assert s == [s[0]] + s[1..];
      [s[0]] + RemoveQuote(s[1..], q)
  }

  /** Some quote of `s` has strike `k`. */
  ghost predicate HasStrike(s: seq<Quote>, k: real) {
    exists j :: 0 <= j < |s| && s[j].strike == k
  }

  /** Non-negative strikes: what keeps the arbitrage-consistent set sorted from its start
      [strike-0 quote, first-ranked quote] on. */
  ghost predicate NonNegativeStrikes(s: seq<Quote>) {
    forall i :: 0 <= i < |s| ==> s[i].strike >= 0.0
  }

  /** Quotes on which no neighbour lookup of the filters fails: positive strikes (strike 0 is
      the synthetic quote's) that are pairwise distinct, with the non-negative moneyness a
      positive forward gives. */
  ghost predicate Candidates(s: seq<Quote>) {
    && (forall i :: 0 <= i < |s| ==> s[i].strike > 0.0 && s[i].moneyness >= 0.0)
    && (forall i, j :: 0 <= i < j < |s| ==> s[i].strike != s[j].strike)
  }

  /** Removing the first quote at a strike removes one occurrence of that strike, and one
      occurrence of the quote found there. */
  lemma StrikesOfRemove(s: seq<Quote>, q: Quote)
    requires HasStrike(s, q.strike)
    ensures multiset(Strikes(RemoveQuote(s, q))) == multiset(Strikes(s)) - multiset{q.strike}
    ensures multiset(RemoveQuote(s, q)) == multiset(s) - multiset{s[IndexOfStrike(s, q.strike)]}
  {
    var i := IndexOfStrike(s, q.strike);
    var a, b := s[..i], s[i + 1..];
    assert s == a + [s[i]] + b;
    StrikesOfSplice(a, b, s[i]);
    assert RemoveQuote(s, q) == a + b;
    assert multiset(s) == multiset(a + b) + multiset{s[i]};
  }

  /** Strikes that occur in `a` at least as often as in `b`. */
  lemma HasStrikeOfSubMultiset(a: seq<Quote>, b: seq<Quote>, k: real)
    requires multiset(Strikes(b)) <= multiset(Strikes(a)) && HasStrike(b, k)
    ensures HasStrike(a, k)
  {
    var j :| 0 <= j < |b| && b[j].strike == k;
    assert Strikes(b)[j] == k;
    assert k in multiset(Strikes(a));
    var i :| 0 <= i < |a| && Strikes(a)[i] == k;
  }

  /** Inserting a quote into a list keeps, as strikes, exactly the old ones plus the new one. */
  lemma StrikesOfInsort(s: seq<Quote>, q: Quote)
    ensures multiset(Strikes(InsortLeft(s, q, QuoteLess))) == multiset(Strikes(s)) + multiset{q.strike}
    ensures forall i :: 0 <= i < |s| + 1 ==>
              InsortLeft(s, q, QuoteLess)[i] == q || InsortLeft(s, q, QuoteLess)[i] in s
  {
    var p := BisectLeft(s, q, QuoteLess);
    var a, b := s[..p], s[p..];
    assert s == a + b;
    StrikesOfSplice(a, b, q);
    forall i | 0 <= i < |s| + 1
      ensures (a + [q] + b)[i] == q || (a + [q] + b)[i] in s
    {
      if i < p {
        assert (a + [q] + b)[i] == s[i];
      } else if i > p {
        assert (a + [q] + b)[i] == s[i - 1];
      }
    }
  }

  /** Splicing a quote into a list adds its strike to the list's strikes. */
  lemma StrikesOfSplice(a: seq<Quote>, b: seq<Quote>, q: Quote)
    ensures multiset(Strikes(a + [q] + b)) == multiset(Strikes(a + b)) + multiset{q.strike}
  {
    StrikesOfConcat(a + [q], b);
    StrikesOfConcat(a, [q]);
    StrikesOfConcat(a, b);
    assert Strikes([q]) == [q.strike];
  }

  /** A permutation of a list of quotes has the same strikes, counted with multiplicity. */
  lemma {:induction false} StrikesOfPermutation(s: seq<Quote>, t: seq<Quote>)
    requires multiset(s) == multiset(t)
    ensures multiset(Strikes(s)) == multiset(Strikes(t))
    decreases |s|
  {
    if |s| > 0 {
      var x := s[0];
      assert x in multiset(t);
      var p :| 0 <= p < |t| && t[p] == x;
      var t' := t[..p] + t[p + 1..];
      assert t == t[..p] + [x] + t[p + 1..];
      assert s == [x] + s[1..];
      assert multiset(t) == multiset(t[..p]) + multiset{x} + multiset(t[p + 1..]);
      assert multiset(t') == multiset(t[..p]) + multiset(t[p + 1..]);
      assert multiset(s) == multiset{x} + multiset(s[1..]);
      assert multiset(s[1..]) == multiset(s) - multiset{x};
      assert multiset(t') == multiset(t) - multiset{x};
      StrikesOfPermutation(s[1..], t');
      StrikesOfConcat([x], s[1..]);
      StrikesOfConcat(t[..p], [x]);
      StrikesOfConcat(t[..p] + [x], t[p + 1..]);
      StrikesOfConcat(t[..p], t[p + 1..]);
    }
  }

  /** With pairwise distinct strikes no quote occurs twice. */
  lemma {:induction false} DistinctStrikesOccurOnce(s: seq<Quote>, x: Quote)
    requires forall i, j :: 0 <= i < j < |s| ==> s[i].strike != s[j].strike
    ensures multiset(s)[x] <= 1
    decreases |s|
  {
    if |s| > 0 {
      assert s == [s[0]] + s[1..];
      DistinctStrikesOccurOnce(s[1..], x);
      if s[0] == x {
        assert x !in s[1..];
      }
    }
  }

  /** A permutation of quotes with non-negative strikes has non-negative strikes. */
  lemma PermutationKeepsNonNegativeStrikes(s: seq<Quote>, t: seq<Quote>)
    requires NonNegativeStrikes(s) && multiset(s) == multiset(t)
    ensures NonNegativeStrikes(t)
  {
    forall i | 0 <= i < |t|
      ensures t[i].strike >= 0.0
    {
      assert t[i] in multiset(s);
    }
  }

  /** A permutation of candidate quotes is made of candidate quotes. */
  lemma PermutationKeepsCandidates(s: seq<Quote>, t: seq<Quote>)
    requires Candidates(s) && multiset(s) == multiset(t)
    ensures Candidates(t)
  {
    forall i | 0 <= i < |t|
      ensures t[i].strike > 0.0 && t[i].moneyness >= 0.0
    {
      assert t[i] in multiset(s);
    }
    forall i, j | 0 <= i < j < |t|
      ensures t[i].strike != t[j].strike
    {
      assert t[i] in multiset(s) && t[j] in multiset(s);
      var a :| 0 <= a < |s| && s[a] == t[i];
      var b :| 0 <= b < |s| && s[b] == t[j];
      if t[i] == t[j] {
        assert t == t[..i] + [t[i]] + t[i + 1..j] + [t[j]] + t[j + 1..];
        assert multiset(t)[t[i]] >= 2;
        DistinctStrikesOccurOnce(s, t[i]);
      } else {
        assert a != b;
        if a > b {
          assert s[b].strike != s[a].strike;
        }
      }
    }
  }
}
