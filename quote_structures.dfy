/** The quote containers of the current lineage (python/qproc/internal/quote_structures.py):
    a bid/ask quote, a slice of quotes sharing one expiry kept sorted by strike, and a surface
    of slices kept sorted by expiry. Also the unit tags of the package. */
module QuoteStructures {
  import opened Common
  import opened Sorting

  /** A strike on the extended half line: the synthetic quote at +infinity needs a case of its own. */
  datatype Strike = Finite(value: real) | Infinity

  /** Python's `<` on float strikes, +infinity included. */
  predicate StrikeLess(a: Strike, b: Strike) {
    match a
    case Infinity => false
    case Finite(x) => b.Infinity? || x < b.value
  }

  datatype Side = MidSide | BidSide | AskSide

  datatype PriceUnit = Vol | TotalVar | Call | NormalizedCall

  datatype StrikeUnit = PlainStrike | Moneyness | LogMoneyness

  /** A bid/ask observation at one strike with the scalar that ranks its liquidity. */
  datatype Quote = Quote(bid: real, ask: real, strike: Strike, liqProxy: real) {

    /** `mid`: the bid when bid and ask agree, their average otherwise; over the reals this is
        always the average. */
    function Mid(): (m: real)
      ensures m == (bid + ask) / 2.0
      ensures bid <= ask ==> bid <= m <= ask
    {
      if bid == ask then bid else (bid + ask) / 2.0
    }

    /** `__call__(side)`: the price on the requested side. */
    function Price(side: Side): real {
      match side
      case MidSide => Mid()
      case BidSide => bid
      case AskSide => ask
    }

    /** `set_price`: the mid side sets both bid and ask, the other sides set only their own
        field; strike and liquidity proxy never change. */
    function SetPrice(price: real, side: Side): (r: Quote)
      ensures r.strike == strike && r.liqProxy == liqProxy
      ensures side == MidSide ==> r.bid == r.ask == price
      ensures side == BidSide ==> r.bid == price && r.ask == ask
      ensures side == AskSide ==> r.ask == price && r.bid == bid
    {
      match side
      case MidSide => this.(bid := price, ask := price)
      case BidSide => this.(bid := price)
      case AskSide => this.(ask := price)
    }
  }

  /** `Quote.__lt__`: quotes are ordered by strike only. */
  predicate QuoteLess(a: Quote, b: Quote) {
    StrikeLess(a.strike, b.strike)
  }

  /** `Quote.__eq__`: quotes compare equal when their strikes do. */
  predicate QuoteEq(a: Quote, b: Quote) {
    a.strike == b.strike
  }

  /** Reading back the side just set returns the price that was set, and reading the other
      side of a one-sided update returns the old value. */
  lemma SetPriceThenPrice(q: Quote, price: real, side: Side)
    ensures q.SetPrice(price, side).Price(side) == price
    ensures side == BidSide ==> q.SetPrice(price, side).Price(AskSide) == q.ask
    ensures side == AskSide ==> q.SetPrice(price, side).Price(BidSide) == q.bid
    ensures side == MidSide ==> q.SetPrice(price, side).Price(BidSide) == price
  {
  }

  /** Ordering by strike is a strict weak order on any list of quotes, as `bisect` needs. */
  lemma QuoteLessIsStrictWeakOrder(s: seq<Quote>)
    ensures StrictWeakOrderOn(s, QuoteLess)
  {
    forall i, j, k | 0 <= i < |s| && 0 <= j < |s| && 0 <= k < |s|
      ensures OrderedTriple(s[i], s[j], s[k], QuoteLess)
    {
    }
  }

  /** Two strikes are either ordered one way or the other, or equal. */
  lemma StrikeTrichotomy(a: Strike, b: Strike)
    ensures StrikeLess(a, b) || StrikeLess(b, a) || a == b
    ensures !(StrikeLess(a, b) && StrikeLess(b, a))
  {
  }

  /** A slice of quotes sharing one expiry. */
  class QuoteSlice {
    const expiry: real
    var quotes: seq<Quote>

    constructor (expiry: real)
      ensures this.expiry == expiry && quotes == []
    {
      this.expiry := expiry;
      quotes := [];
    }

    /** `add_quote`: sorted insertion by strike, before any quote with the same strike. */
    method AddQuote(q: Quote)
      modifies this
      ensures quotes == InsortLeft(old(quotes), q, QuoteLess)
      ensures |quotes| == |old(quotes)| + 1
      ensures multiset(quotes) == multiset(old(quotes)) + multiset{q}
      ensures SortedBy(old(quotes), QuoteLess) ==> SortedBy(quotes, QuoteLess)
    {
      QuoteLessIsStrictWeakOrder(quotes + [q]);
      if SortedBy(quotes, QuoteLess) {
        InsortLeftSorted(quotes, q, QuoteLess);
      }
      quotes := InsortLeft(quotes, q, QuoteLess);
    }

    function NQuotes(): nat
      reads this
    {
      |quotes|
    }
  }

  /** `QuoteSlice.__lt__`: slices are ordered by expiry only. */
  predicate SliceLess(a: QuoteSlice, b: QuoteSlice) {
    a.expiry < b.expiry
  }

  lemma SliceLessIsStrictWeakOrder(s: seq<QuoteSlice>)
    ensures StrictWeakOrderOn(s, SliceLess)
  {
  }

  /** Total number of quotes held by a list of slices. */
  ghost function TotalQuotes(slices: seq<QuoteSlice>): nat
    reads set i | 0 <= i < |slices| :: slices[i]
  {
    if slices == [] then 0 else TotalQuotes(slices[..|slices| - 1]) + |slices[|slices| - 1].quotes|
  }

  /** A surface: the unit tags its quotes are expressed in and its slices sorted by expiry. */
  class QuoteSurface {
    var priceUnit: PriceUnit
    var strikeUnit: StrikeUnit
    var slices: seq<QuoteSlice>

    constructor (priceUnit: PriceUnit, strikeUnit: StrikeUnit)
      ensures this.priceUnit == priceUnit && this.strikeUnit == strikeUnit && slices == []
    {
      this.priceUnit := priceUnit;
      this.strikeUnit := strikeUnit;
      slices := [];
    }

    /** `add_slice`: sorted insertion by expiry. */
    method AddSlice(s: QuoteSlice)
      modifies this
      ensures slices == InsortLeft(old(slices), s, SliceLess)
      ensures priceUnit == old(priceUnit) && strikeUnit == old(strikeUnit)
      ensures SortedBy(old(slices), SliceLess) ==> SortedBy(slices, SliceLess)
    {
      SliceLessIsStrictWeakOrder(slices + [s]);
      if SortedBy(slices, SliceLess) {
        InsortLeftSorted(slices, s, SliceLess);
      }
      slices := InsortLeft(slices, s, SliceLess);
    }

    function NExpiries(): nat
      reads this
    {
      |slices|
    }

    /** `expiries`: one expiry per slice, in slice order; ascending when the slices are sorted. */
    function Expiries(): (r: seq<real>)
      reads this
      ensures |r| == NExpiries()
      ensures forall i :: 0 <= i < |r| ==> r[i] == slices[i].expiry
      ensures SortedBy(slices, SliceLess) ==> forall i, j :: 0 <= i < j < |r| ==> r[i] <= r[j]
    {
      seq(|slices|, i requires 0 <= i < |slices| reads this => slices[i].expiry)
    }

    /** `n_quotes`: accumulates the slices' quote counts. */
    method NQuotes() returns (total: nat)
      ensures total == TotalQuotes(slices)
    {
      total := 0;
      for i := 0 to |slices|
        invariant total == TotalQuotes(slices[..i])
      {
        assert slices[..i + 1][..i] == slices[..i];
        total := total + slices[i].NQuotes();
      }
      assert slices[..|slices|] == slices;
    }

    /** `get_slice`: the slice found by `find_le` on expiry, which must match exactly. */
    method GetSlice(expiry: real) returns (r: Result<QuoteSlice>)
      ensures r.Ok? ==> r.value in slices && r.value.expiry == expiry
      ensures r == Err(LookupFailed) <==> |slices| == 0 || slices[0].expiry > expiry
      ensures SortedBy(slices, SliceLess) && (exists i :: 0 <= i < |slices| && slices[i].expiry == expiry) ==> r.Ok?
    {
      var dummy := new QuoteSlice(expiry);
      var i := FindLe(slices, dummy, SliceLess);
      if i == -1 {
        r := Err(LookupFailed);
      } else if slices[i].expiry != expiry {
        r := Err(ExpiryNotFound);
        if SortedBy(slices, SliceLess) {
          forall k | 0 <= k < |slices|
            ensures slices[k].expiry != expiry
          {
            if k > i {
              assert slices[i + 1].expiry > expiry;
              assert !SliceLess(slices[k], slices[i + 1]) || k == i + 1;
            }
          }
        }
      } else {
        r := Ok(slices[i]);
      }
    }
  }
}
