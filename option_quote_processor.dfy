/** The quote processor of the current lineage (python/qproc/internal/option_quote_processor.py):
    it holds a quote surface, converts it to normalized calls at forward moneyness, runs an
    arbitrage filter over it, and answers lower and upper price bounds at any strike of a
    quoted expiry in the caller's units.

    The processor's own strike and price conversions repeat those of
    python/qproc/internal/quote_transformation.py rule for rule; they are modelled once, in
    `QuoteTransformation`. The forward and discount factor of an expiry are parameters. */
module OptionQuoteProcessing {
  import opened Common
  import opened Sorting
  import opened QuoteStructures
  import opened ArbitrageFreeSets
  import opened ArbitrageFilters
  import opened QuoteTransformation
  import Interpolation

  datatype BoundType = LowerBoundType | UpperBoundType

  /** Slices compare by expiry. */
  predicate ExpiryLess(a: real, b: real) {
    a < b
  }

  /** On ascending expiries, `find_le` on an expiry that occurs lands on it. */
  lemma SliceIndexFound(expiries: seq<real>, expiry: real, i: int)
    requires i == FindLe(expiries, expiry, ExpiryLess)
    ensures (forall a, b :: 0 <= a < b < |expiries| ==> expiries[a] <= expiries[b]) && expiry in expiries ==>
              i >= 0 && expiries[i] == expiry
  {
    if !(forall a, b :: 0 <= a < b < |expiries| ==> expiries[a] <= expiries[b]) || expiry !in expiries {
      return;
    }
    var m :| 0 <= m < |expiries| && expiries[m] == expiry;
    if i + 1 <= m {
      assert false;
    }
  }

  /** The filter types a caller may ask for. */
  datatype FilterType = NoFilterType | StrikeFilterType | ExpiryFilterType | DiscardFilterType

  /** `create_filter`: a repricing filter for `strike`, a discarding one for `discard`, and a
      RuntimeError for any other type. */
  function FilterKindFor(filterType: FilterType): (r: Result<FilterKind>)
    ensures r.Err? <==> filterType == NoFilterType || filterType == ExpiryFilterType
    ensures r.Err? ==> r.error == UnhandledFilterType
    ensures r == Ok(StrikeKind) <==> filterType == StrikeFilterType
    ensures r == Ok(DiscardKind) <==> filterType == DiscardFilterType
  {
    match filterType
    case StrikeFilterType => Ok(StrikeKind)
    case DiscardFilterType => Ok(DiscardKind)
    case _ => Err(UnhandledFilterType)
  }

  /** No slice object occurs twice in the list. */
  ghost predicate DistinctSlices(slices: seq<QuoteSlice>) {
    forall i, j :: 0 <= i < j < |slices| ==> slices[i] != slices[j]
  }

  /** Every slice of the surface can be converted to the target units with its expiry's
      forward and discount factor. */
  ghost predicate SurfaceConvertible(surface: QuoteSurface, targetP: PriceUnit, targetS: StrikeUnit,
                                     forward: real -> real, discountFactor: real -> real)
    reads surface
  {
    forall i :: 0 <= i < |surface.slices| ==>
      var e := surface.slices[i].expiry;
      QuoteConvertible(surface.priceUnit, targetP, surface.strikeUnit, targetS, e, discountFactor(e), forward(e))
  }

  /** The quotes of a slice expiring at `expiry`, converted as `transform_quote_surface` does. */
  ghost function ConvertedQuotes(quotes: seq<Quote>, unitP: PriceUnit, targetP: PriceUnit, unitS: StrikeUnit, targetS: StrikeUnit,
                                 expiry: real, forward: real -> real, discountFactor: real -> real, nm: Numerics): seq<Quote>
  {
    if QuoteConvertible(unitP, targetP, unitS, targetS, expiry, discountFactor(expiry), forward(expiry))
    then TransformQuotes(quotes, unitP, targetP, unitS, targetS, expiry, discountFactor(expiry), forward(expiry), nm)
    else quotes
  }

  /** The inner loop of `transform_quote_surface`: each quote of the slice converted in place,
      in list order. */
  method TransformSliceQuotes(qs: QuoteSlice, unitP: PriceUnit, targetP: PriceUnit, unitS: StrikeUnit, targetS: StrikeUnit,
                              forward: real -> real, discountFactor: real -> real, nm: Numerics)
    requires QuoteConvertible(unitP, targetP, unitS, targetS, qs.expiry, discountFactor(qs.expiry), forward(qs.expiry))
    modifies qs
    ensures qs.quotes == ConvertedQuotes(old(qs.quotes), unitP, targetP, unitS, targetS, qs.expiry, forward, discountFactor, nm)
  {
    var e := qs.expiry;
    var n := |qs.quotes|;
    for j := 0 to n
      invariant |qs.quotes| == n
      invariant forall m :: 0 <= m < j ==>
                  qs.quotes[m] == TransformQuote(old(qs.quotes)[m], unitP, targetP, unitS, targetS, e, discountFactor(e), forward(e), nm)
      invariant forall m :: j <= m < n ==> qs.quotes[m] == old(qs.quotes)[m]
    {
      qs.quotes := qs.quotes[j := TransformQuote(qs.quotes[j], unitP, targetP, unitS, targetS, e, discountFactor(e), forward(e), nm)];
    }
  }

  /** The `deepcopy` of a surface: new slice objects holding the same expiries and quotes. */
  method CopySurface(surface: QuoteSurface) returns (c: QuoteSurface)
    ensures fresh(c) && forall i :: 0 <= i < |c.slices| ==> fresh(c.slices[i])
    ensures c.priceUnit == surface.priceUnit && c.strikeUnit == surface.strikeUnit
    ensures |c.slices| == |surface.slices| && DistinctSlices(c.slices)
    ensures forall i :: 0 <= i < |c.slices| ==>
              c.slices[i].expiry == surface.slices[i].expiry && c.slices[i].quotes == surface.slices[i].quotes
  {
    var slices: seq<QuoteSlice> := [];
    for i := 0 to |surface.slices|
      invariant |slices| == i && DistinctSlices(slices)
      invariant forall m :: 0 <= m < i ==> fresh(slices[m])
      invariant forall m :: 0 <= m < i ==>
                  slices[m].expiry == surface.slices[m].expiry && slices[m].quotes == surface.slices[m].quotes
    {
      var s := new QuoteSlice(surface.slices[i].expiry);
      s.quotes := surface.slices[i].quotes;
      slices := slices + [s];
    }
    c := new QuoteSurface(surface.priceUnit, surface.strikeUnit);
    c.slices := slices;
  }

  /** The outer loop of `transform_quote_surface`: the slices converted one after the other,
      each with its own expiry. */
  method TransformSlices(slices: seq<QuoteSlice>, unitP: PriceUnit, targetP: PriceUnit, unitS: StrikeUnit, targetS: StrikeUnit,
                         forward: real -> real, discountFactor: real -> real, nm: Numerics)
    requires DistinctSlices(slices)
    requires forall i :: 0 <= i < |slices| ==>
               var e := slices[i].expiry;
               QuoteConvertible(unitP, targetP, unitS, targetS, e, discountFactor(e), forward(e))
    modifies slices
    ensures forall i :: 0 <= i < |slices| ==>
              slices[i].quotes == ConvertedQuotes(old(slices[i].quotes), unitP, targetP, unitS, targetS, slices[i].expiry,
                                                  forward, discountFactor, nm)
  {
    ghost var original := seq(|slices|, i requires 0 <= i < |slices| reads slices => slices[i].quotes);
    for i := 0 to |slices|
      invariant forall m :: 0 <= m < i ==>
                  slices[m].quotes == ConvertedQuotes(original[m], unitP, targetP, unitS, targetS, slices[m].expiry, forward, discountFactor, nm)
      invariant forall m :: i <= m < |slices| ==> slices[m].quotes == original[m]
    {
      TransformSliceQuotes(slices[i], unitP, targetP, unitS, targetS, forward, discountFactor, nm);
    }
  }

  /** `transform_quote_surface`: every quote of every slice converted with its slice's expiry,
      forward and discount factor, and the surface tagged with the target units. In place the
      surface itself is rewritten; otherwise a converted copy is returned and the input is left
      as it was. */
  method TransformQuoteSurface(surface: QuoteSurface, targetP: PriceUnit, targetS: StrikeUnit, inPlace: bool,
                               forward: real -> real, discountFactor: real -> real, nm: Numerics) returns (r: QuoteSurface)
    requires DistinctSlices(surface.slices)
    requires SurfaceConvertible(surface, targetP, targetS, forward, discountFactor)
    modifies if inPlace then {surface} else {}, if inPlace then surface.slices else []
    ensures inPlace ==> r == surface && r.slices == old(surface.slices)
    ensures !inPlace ==> fresh(r) && forall i :: 0 <= i < |r.slices| ==> fresh(r.slices[i])
    ensures !inPlace ==>
              && surface.priceUnit == old(surface.priceUnit) && surface.strikeUnit == old(surface.strikeUnit)
              && surface.slices == old(surface.slices)
              && forall i :: 0 <= i < |surface.slices| ==> surface.slices[i].quotes == old(surface.slices[i].quotes)
    ensures r.priceUnit == targetP && r.strikeUnit == targetS
    ensures |r.slices| == |old(surface.slices)| && DistinctSlices(r.slices)
    ensures forall i :: 0 <= i < |r.slices| ==>
              && r.slices[i].expiry == old(surface.slices[i].expiry)
              && r.slices[i].quotes == ConvertedQuotes(old(surface.slices[i].quotes), old(surface.priceUnit), targetP,
                                                       old(surface.strikeUnit), targetS, r.slices[i].expiry, forward, discountFactor, nm)
  {
    var unitP, unitS := surface.priceUnit, surface.strikeUnit;
    if inPlace {
      r := surface;
    } else {
      r := CopySurface(surface);
    }
    TransformSlices(r.slices, unitP, targetP, unitS, targetS, forward, discountFactor, nm);
    r.priceUnit := targetP;
    r.strikeUnit := targetS;
  }

  /** `transform_quote_surface` as written: the conversion call for the first quote of the
      first slice holding one reads the slice's `discount_factor`, which a slice does not have,
      so AttributeError is raised before anything is converted. Only a surface without quotes
      is retagged with the target units. */
  method TransformQuoteSurfaceAsWritten(surface: QuoteSurface, targetP: PriceUnit, targetS: StrikeUnit, inPlace: bool)
    returns (r: Result<QuoteSurface>)
    modifies if inPlace then {surface} else {}
    ensures r.Err? <==> exists i :: 0 <= i < |surface.slices| && |surface.slices[i].quotes| > 0
    ensures r.Err? ==> r.error == MissingAttribute
    ensures surface.slices == old(surface.slices)
    ensures r.Err? || !inPlace ==> surface.priceUnit == old(surface.priceUnit) && surface.strikeUnit == old(surface.strikeUnit)
    ensures r.Ok? ==> r.value.priceUnit == targetP && r.value.strikeUnit == targetS && |r.value.slices| == |surface.slices|
    ensures r.Ok? && inPlace ==> r.value == surface
    ensures r.Ok? && !inPlace ==> fresh(r.value)
  {
    var c := surface;
    if !inPlace {
      c := CopySurface(surface);
    }
    for i := 0 to |c.slices|
      invariant forall k :: 0 <= k < i ==> |surface.slices[k].quotes| == 0
    {
      if |c.slices[i].quotes| > 0 {
        return Err(MissingAttribute);
      }
    }
    c.priceUnit := targetP;
    c.strikeUnit := targetS;
    r := Ok(c);
  }

  /** The normalized-call bound a set gives at a strike in the surface's units: the set's lower
      or upper bound for a quote at that strike. The lookups fail below a positive strike. */
  function SetBound(s: seq<Quote>, k: real, boundType: BoundType): (r: Result<real>)
    requires Shaped(s)
    ensures r.Err? <==> k <= 0.0
    ensures r.Err? ==> r.error == LookupFailed
    ensures r.Ok? && boundType == LowerBoundType ==> r.value >= 0.0
  {
    var q := Quote(0.0, 0.0, Finite(k), 0.0);
    if !IsInteriorStrike(q.strike) then Err(LookupFailed)
    else if boundType == LowerBoundType then Ok(LowerBound(s, q))
    else Ok(UpperBound(s, q))
  }

  /** On an arbitrage-free set, the lower bound never exceeds the upper bound at a strike the
      set does not hold yet. */
  lemma SetBoundsOrdered(s: seq<Quote>, k: real)
    requires ArbitrageFree(s) && k > 0.0 && !HasStrike(s, Finite(k))
    ensures SetBound(s, k, LowerBoundType).value <= SetBound(s, k, UpperBoundType).value
  {
    BoundsOrdered(s, Quote(0.0, 0.0, Finite(k), 0.0));
  }

  /** The price bound at one strike given in the caller's units: the strike is moved to the
      surface's unit, the set's normalized-call bound taken there, and that bound converted back
      to the caller's price unit at the caller's strike. */
  function PriceBound(s: seq<Quote>, k: real, strikeUnit: StrikeUnit, surfaceUnit: StrikeUnit, priceUnit: PriceUnit,
                      boundType: BoundType, expiry: real, discountFactor: real, forward: real, nm: Numerics): (r: Result<real>)
    requires Shaped(s) && StrikeConvertible(strikeUnit, surfaceUnit, forward)
    ensures r.Err? <==> TransformStrike(k, strikeUnit, surfaceUnit, forward, nm) <= 0.0
    ensures priceUnit == NormalizedCall && boundType == LowerBoundType && r.Ok? ==> r.value >= 0.0
  {
    var b :- SetBound(s, TransformStrike(k, strikeUnit, surfaceUnit, forward, nm), boundType);
    Ok(TransformPrice(k, strikeUnit, b, NormalizedCall, priceUnit, expiry, discountFactor, forward, nm))
  }

  /** Converting a call-price bound back to normalized calls at moneyness gives the set's own
      normalized bound: the two conversions of `_compute_bound` undo each other. */
  lemma CallBoundRoundTrip(s: seq<Quote>, k: real, boundType: BoundType, expiry: real, discountFactor: real, forward: real, nm: Numerics)
    requires Shaped(s) && forward != 0.0 && discountFactor != 0.0
    requires k / forward > 0.0
    ensures discountFactor * forward != 0.0
    ensures var b := PriceBound(s, k, PlainStrike, Moneyness, Call, boundType, expiry, discountFactor, forward, nm);
            && b.Ok?
            && SinglePrice(Finite(k), b.value, Call, NormalizedCall, expiry, discountFactor, forward, nm)
               == SetBound(s, k / forward, boundType).value
  {
    assert discountFactor * forward != 0.0 by {
      if discountFactor * forward == 0.0 {
        MulCancels(discountFactor, 0.0, forward);
      }
    }
    NormalizedThroughCall(Finite(k), SetBound(s, k / forward, boundType).value, expiry, discountFactor, forward, nm);
  }

  /** `_compute_normalized_call_bound` on the set of one expiry: the bound at every strike, a
      scalar for a scalar and an array of the same length for an array. The first strike the
      lookups reject ends the computation. */
  method NormalizedCallBound(a: ArbitrageFreeSet, strikes: Interpolation.ScalarOrArray, boundType: BoundType)
    returns (r: Result<Interpolation.ScalarOrArray>)
    requires a.Valid()
    ensures r.Err? <==> exists j :: 0 <= j < |Interpolation.Elements(strikes)| && Interpolation.Elements(strikes)[j] <= 0.0
    ensures r.Err? ==> r.error == LookupFailed
    ensures r.Ok? ==> (r.value.Scalar? <==> strikes.Scalar?)
    ensures r.Ok? ==> |Interpolation.Elements(r.value)| == |Interpolation.Elements(strikes)|
    ensures r.Ok? ==> forall j :: 0 <= j < |Interpolation.Elements(strikes)| ==>
              SetBound(a.sortedQuotes, Interpolation.Elements(strikes)[j], boundType) == Ok(Interpolation.Elements(r.value)[j])
  {
    var bounds :- BoundsAt(a.sortedQuotes, Interpolation.Elements(strikes), boundType);
    r := Ok(if strikes.Scalar? then Interpolation.Scalar(bounds[0]) else Interpolation.Array(bounds));
  }

  /** The loop of `_compute_normalized_call_bound` over an array of strikes: the set's bound at
      each strike in turn, stopping at the first strike the lookups reject. */
  method BoundsAt(s: seq<Quote>, ks: seq<real>, boundType: BoundType) returns (r: Result<seq<real>>)
    requires Shaped(s)
    ensures r.Err? <==> exists j :: 0 <= j < |ks| && ks[j] <= 0.0
    ensures r.Err? ==> r.error == LookupFailed
    ensures r.Ok? ==> |r.value| == |ks| && forall j :: 0 <= j < |ks| ==> SetBound(s, ks[j], boundType) == Ok(r.value[j])
  {
    var bounds := new real[|ks|];
    for i := 0 to |ks|
      invariant forall j :: 0 <= j < i ==> SetBound(s, ks[j], boundType) == Ok(bounds[j])
    {
      var b := SetBound(s, ks[i], boundType);
      if b.Err? {
        return Err(b.error);
      }
      bounds[i] := b.value;
    }
    r := Ok(bounds[..]);
  }

  /** `transform_strike` on a scalar or an array: each strike converted on its own, the shape
      kept. */
  function TransformStrikes(strikes: Interpolation.ScalarOrArray, unit: StrikeUnit, target: StrikeUnit, forward: real, nm: Numerics)
    : (r: Interpolation.ScalarOrArray)
    requires StrikeConvertible(unit, target, forward)
    ensures r.Scalar? <==> strikes.Scalar?
    ensures |Interpolation.Elements(r)| == |Interpolation.Elements(strikes)|
    ensures forall j :: 0 <= j < |Interpolation.Elements(r)| ==>
              Interpolation.Elements(r)[j] == TransformStrike(Interpolation.Elements(strikes)[j], unit, target, forward, nm)
  {
    match strikes
    case Scalar(k) => Interpolation.Scalar(TransformStrike(k, unit, target, forward, nm))
    case Array(ks) => Interpolation.Array(seq(|ks|, j requires 0 <= j < |ks| => TransformStrike(ks[j], unit, target, forward, nm)))
  }

  /** The tail of `_compute_bound` once the set is found: strikes converted to the surface's
      unit, normalized-call bounds read from the set, and the bounds converted back to the
      caller's units. It fails exactly when a converted strike is not positive. */
  method SetPriceBounds(a: ArbitrageFreeSet, strikes: Interpolation.ScalarOrArray, strikeUnit: StrikeUnit, surfaceUnit: StrikeUnit,
                        priceUnit: PriceUnit, boundType: BoundType, expiry: real, discountFactor: real, forward: real, nm: Numerics)
    returns (r: Result<Interpolation.ScalarOrArray>)
    requires a.Valid() && StrikeConvertible(strikeUnit, surfaceUnit, forward)
    ensures r.Ok? <==> forall j :: 0 <= j < |Interpolation.Elements(strikes)| ==>
                         TransformStrike(Interpolation.Elements(strikes)[j], strikeUnit, surfaceUnit, forward, nm) > 0.0
    ensures r.Ok? ==> (r.value.Scalar? <==> strikes.Scalar?)
    ensures r.Ok? ==> |Interpolation.Elements(r.value)| == |Interpolation.Elements(strikes)|
    ensures r.Ok? ==> forall j :: 0 <= j < |Interpolation.Elements(strikes)| ==>
              PriceBound(a.sortedQuotes, Interpolation.Elements(strikes)[j], strikeUnit, surfaceUnit, priceUnit, boundType,
                         expiry, discountFactor, forward, nm) == Ok(Interpolation.Elements(r.value)[j])
  {
    var ks := Interpolation.Elements(strikes);
    var normalized := NormalizedCallBound(a, TransformStrikes(strikes, strikeUnit, surfaceUnit, forward, nm), boundType);
    if normalized.Err? {
      return Err(normalized.error);
    }
    var bounds := Interpolation.Elements(normalized.value);
    var prices := TransformPrices(ks, strikeUnit, bounds, NormalizedCall, priceUnit, expiry, discountFactor, forward, nm);
    var out := prices.value[..];
    forall j | 0 <= j < |ks|
      ensures PriceBound(a.sortedQuotes, ks[j], strikeUnit, surfaceUnit, priceUnit, boundType, expiry, discountFactor, forward, nm) == Ok(out[j])
    {
      PriceBoundOfSetBound(a.sortedQuotes, ks[j], strikeUnit, surfaceUnit, priceUnit, boundType, expiry, discountFactor, forward, nm, bounds[j]);
    }
    r := Ok(if strikes.Scalar? then Interpolation.Scalar(out[0]) else Interpolation.Array(out));
  }

  /** A price bound is the set's bound at the converted strike, converted back. */
  lemma PriceBoundOfSetBound(s: seq<Quote>, k: real, strikeUnit: StrikeUnit, surfaceUnit: StrikeUnit, priceUnit: PriceUnit,
                             boundType: BoundType, expiry: real, discountFactor: real, forward: real, nm: Numerics, b: real)
    requires Shaped(s) && StrikeConvertible(strikeUnit, surfaceUnit, forward)
    requires SetBound(s, TransformStrike(k, strikeUnit, surfaceUnit, forward, nm), boundType) == Ok(b)
    ensures PriceBound(s, k, strikeUnit, surfaceUnit, priceUnit, boundType, expiry, discountFactor, forward, nm)
            == Ok(TransformPrice(k, strikeUnit, b, NormalizedCall, priceUnit, expiry, discountFactor, forward, nm))
  {
  }

  /** `filter()` on a filter fresh from its constructor, read in terms of the surface it was
      built over: every recorded set is shaped, and on success each slice holds the interior
      of its own run. */
  method RunFreshFilter(f: StrikeFilter) returns (r: Result<()>)
    requires f.Ready() && f.SmoothingGiven() && f.sliceIndex.None? && f.arbitrageFreeSets == []
    requires DistinctSlices(f.quoteSurface.slices)
    requires |f.smoothingParams| == |f.quoteSurface.slices|
    modifies f, f.currentA, f.quoteSurface.slices
    ensures forall k :: 0 <= k < |f.arbitrageFreeSets| ==> f.arbitrageFreeSets[k].Valid()
    ensures r.Ok? <==> forall i :: 0 <= i < |f.quoteSurface.slices| ==>
                         FilterSlice(f.kind, old(f.quoteSurface.slices[i].quotes), Smoothing(f.smoothingParams[i])).Ok?
    ensures r.Ok? ==>
              && |f.arbitrageFreeSets| == |f.quoteSurface.slices|
              && forall i :: 0 <= i < |f.quoteSurface.slices| ==>
                   var s := f.arbitrageFreeSets[i].sortedQuotes;
                   && FilterSlice(f.kind, old(f.quoteSurface.slices[i].quotes), Smoothing(f.smoothingParams[i])) == Ok(s)
                   && f.quoteSurface.slices[i].quotes == InteriorQuotes(s)
  {
    r := f.Filter();
    forall k | 0 <= k < |f.arbitrageFreeSets|
      ensures f.arbitrageFreeSets[k].Valid()
    {
      FilterSliceShape(f.kind, old(f.quoteSurface.slices[k].quotes), Smoothing(f.smoothingParams[k]));
    }
  }

  /** The quote processor: the surface it was built on and, once `filter` has run, the filter. */
  class InternalQuoteProcessor {
    const quoteSurface: QuoteSurface
    var arbitrageFilter: Option<StrikeFilter>

    constructor (quoteSurface: QuoteSurface)
      ensures this.quoteSurface == quoteSurface && arbitrageFilter == None
    {
      this.quoteSurface := quoteSurface;
      arbitrageFilter := None;
    }

    /** `_is_filtered`: a filter has been built. */
    predicate IsFiltered()
      reads this
    {
      arbitrageFilter.Some?
    }

    ghost function FilterObjects(): set<object>
      reads this
    {
      if arbitrageFilter.Some? then {arbitrageFilter.value} else {}
    }

    /** The sets the filter has recorded so far, one per filtered slice. */
    ghost function RecordedSets(): seq<ArbitrageFreeSet>
      reads this, FilterObjects()
    {
      if arbitrageFilter.Some? then arbitrageFilter.value.arbitrageFreeSets else []
    }

    /** The filter works on the processor's own surface and every set it recorded keeps its
        two synthetic quotes around quotes sorted by strike. */
    ghost predicate Valid()
      reads this, FilterObjects(), set k | 0 <= k < |RecordedSets()| :: RecordedSets()[k]
    {
      && (arbitrageFilter.Some? ==> arbitrageFilter.value.quoteSurface == quoteSurface)
      && forall k :: 0 <= k < |RecordedSets()| ==> RecordedSets()[k].Valid()
    }

    /** `filter`: the surface is converted in place to normalized calls at moneyness, a filter of
        the requested type built over it and run. Each slice then holds the interior of its own
        `FilterSlice` run on the converted quotes, and the filter has recorded those sets in
        slice order. An unknown type raises once the surface is converted, before any filter is
        built. */
    method Filter(filterType: FilterType, smoothingParam: Option<real>,
                  forward: real -> real, discountFactor: real -> real, nm: Numerics) returns (r: Result<()>)
      requires Valid() && DistinctSlices(quoteSurface.slices)
      requires SurfaceConvertible(quoteSurface, NormalizedCall, Moneyness, forward, discountFactor)
      requires filterType == StrikeFilterType ==> smoothingParam.Some?
      modifies this, quoteSurface, quoteSurface.slices
      ensures Valid()
      ensures quoteSurface.priceUnit == NormalizedCall && quoteSurface.strikeUnit == Moneyness
      ensures quoteSurface.slices == old(quoteSurface.slices)
      ensures FilterKindFor(filterType).Err? ==>
                && r == Err(UnhandledFilterType) && arbitrageFilter == old(arbitrageFilter)
                && forall i :: 0 <= i < |quoteSurface.slices| ==>
                     quoteSurface.slices[i].quotes == ConvertedQuotes(old(quoteSurface.slices[i].quotes), old(quoteSurface.priceUnit), NormalizedCall,
                                                                      old(quoteSurface.strikeUnit), Moneyness, quoteSurface.slices[i].expiry,
                                                                      forward, discountFactor, nm)
      ensures FilterKindFor(filterType).Ok? ==>
                && IsFiltered() && fresh(arbitrageFilter.value)
                && arbitrageFilter.value.kind == FilterKindFor(filterType).value
                && (r.Ok? <==> forall i :: 0 <= i < |quoteSurface.slices| ==>
                                 FilterSlice(arbitrageFilter.value.kind,
                                             ConvertedQuotes(old(quoteSurface.slices[i].quotes), old(quoteSurface.priceUnit), NormalizedCall,
                                                             old(quoteSurface.strikeUnit), Moneyness, quoteSurface.slices[i].expiry,
                                                             forward, discountFactor, nm),
                                             Smoothing(smoothingParam)).Ok?)
      ensures r.Ok? ==>
                && IsFiltered() && |arbitrageFilter.value.arbitrageFreeSets| == |quoteSurface.slices|
                && forall i :: 0 <= i < |quoteSurface.slices| ==>
                     var f := arbitrageFilter.value.arbitrageFreeSets[i].sortedQuotes;
                     && FilterSlice(arbitrageFilter.value.kind,
                                    ConvertedQuotes(old(quoteSurface.slices[i].quotes), old(quoteSurface.priceUnit), NormalizedCall,
                                                    old(quoteSurface.strikeUnit), Moneyness, quoteSurface.slices[i].expiry,
                                                    forward, discountFactor, nm),
                                    Smoothing(smoothingParam)) == Ok(f)
                     && quoteSurface.slices[i].quotes == InteriorQuotes(f)
    {
      var converted := TransformQuoteSurface(quoteSurface, NormalizedCall, Moneyness, true, forward, discountFactor, nm);
      var kind := FilterKindFor(filterType);
      if kind.Err? {
        assert RecordedSets() == old(RecordedSets());
        assert Valid();
        return Err(UnhandledFilterType);
      }
      r := RunFilter(kind.value, smoothingParam);
    }

    /** `filter` as written: the in-place conversion of the surface raises AttributeError as
        soon as the surface holds a quote; on a surface without quotes the conversion goes
        through and `create_filter` is then handed a `smoothing_param_grid` keyword its
        signature does not have, which raises TypeError. No filter is ever built or stored. */
    method FilterAsWritten(filterType: FilterType, smoothingParam: Option<real>) returns (r: Result<()>)
      modifies quoteSurface
      ensures r.Err? && arbitrageFilter == old(arbitrageFilter)
      ensures r.error == MissingAttribute <==> exists i :: 0 <= i < |quoteSurface.slices| && |quoteSurface.slices[i].quotes| > 0
      ensures r.error != MissingAttribute ==>
                r.error == UnexpectedKeyword && quoteSurface.priceUnit == NormalizedCall && quoteSurface.strikeUnit == Moneyness
      ensures quoteSurface.slices == old(quoteSurface.slices)
    {
      var converted := TransformQuoteSurfaceAsWritten(quoteSurface, NormalizedCall, Moneyness, true);
      if converted.Err? {
        return Err(converted.error);
      }
      return Err(UnexpectedKeyword);
    }

    /** The part of `filter` after the conversion: `create_filter` over the held surface, the
        filter stored, and `filter()` run on it. */
    method RunFilter(kind: FilterKind, smoothingParam: Option<real>) returns (r: Result<()>)
      requires DistinctSlices(quoteSurface.slices)
      requires kind == StrikeKind ==> smoothingParam.Some?
      modifies this, quoteSurface.slices
      ensures Valid() && IsFiltered() && fresh(arbitrageFilter.value) && arbitrageFilter.value.kind == kind
      ensures var params := arbitrageFilter.value.smoothingParams;
              |params| == |quoteSurface.slices| && forall i :: 0 <= i < |params| ==> params[i] == smoothingParam
      ensures r.Ok? <==> forall i :: 0 <= i < |quoteSurface.slices| ==>
                           FilterSlice(kind, old(quoteSurface.slices[i].quotes), Smoothing(arbitrageFilter.value.smoothingParams[i])).Ok?
      ensures r.Ok? ==>
                && |arbitrageFilter.value.arbitrageFreeSets| == |quoteSurface.slices|
                && forall i :: 0 <= i < |quoteSurface.slices| ==>
                     var f := arbitrageFilter.value.arbitrageFreeSets[i].sortedQuotes;
                     && FilterSlice(kind, old(quoteSurface.slices[i].quotes), Smoothing(arbitrageFilter.value.smoothingParams[i])) == Ok(f)
                     && quoteSurface.slices[i].quotes == InteriorQuotes(f)
    {
      var f := new StrikeFilter(kind, quoteSurface, smoothingParam);
      r := RunFreshFilter(f);
      arbitrageFilter := Some(f);
    }

    /** `_compute_bound` as written: past its two guards it reads the slice's forward and asks
        the filter for a bound, and neither attribute exists, so every call that passes the
        guards raises AttributeError. */
    method ComputeBoundAsWritten(expiry: real) returns (r: Result<Interpolation.ScalarOrArray>)
      ensures !IsFiltered() ==> r == Err(NotFiltered)
      ensures IsFiltered() && expiry !in quoteSurface.Expiries() ==> r == Err(ExpiryNotFound)
      ensures IsFiltered() && expiry in quoteSurface.Expiries() ==> r == Err(MissingAttribute)
    {
      if !IsFiltered() {
        return Err(NotFiltered);
      } else if expiry !in quoteSurface.Expiries() {
        return Err(ExpiryNotFound);
      }
      return Err(MissingAttribute);
    }

    /** `_compute_bound` with the forward and discount factor of the expiry passed in and the
        bound taken from the set the filter recorded for the slice `get_slice` finds. Bounds come
        in the caller's strike and price units, one per strike and of the same shape. */
    method ComputeBound(expiry: real, strikes: Interpolation.ScalarOrArray, strikeUnit: StrikeUnit, priceUnit: PriceUnit,
                        boundType: BoundType, forward: real -> real, discountFactor: real -> real, nm: Numerics)
      returns (r: Result<Interpolation.ScalarOrArray>)
      requires Valid()
      requires StrikeConvertible(strikeUnit, quoteSurface.strikeUnit, forward(expiry))
      ensures !IsFiltered() ==> r == Err(NotFiltered)
      ensures IsFiltered() && expiry !in quoteSurface.Expiries() ==> r == Err(ExpiryNotFound)
      ensures r.Ok? ==> (r.value.Scalar? <==> strikes.Scalar?)
      ensures r.Ok? ==> |Interpolation.Elements(r.value)| == |Interpolation.Elements(strikes)|
      ensures r.Ok? ==>
                exists i :: 0 <= i < |quoteSurface.slices| && i < |RecordedSets()| && quoteSurface.slices[i].expiry == expiry &&
                  RecordedSets()[i].Valid() &&
                  forall j :: 0 <= j < |Interpolation.Elements(strikes)| ==>
                    PriceBound(RecordedSets()[i].sortedQuotes, Interpolation.Elements(strikes)[j], strikeUnit, quoteSurface.strikeUnit,
                               priceUnit, boundType, expiry, discountFactor(expiry), forward(expiry), nm)
                    == Ok(Interpolation.Elements(r.value)[j])
      ensures && IsFiltered() && SortedBy(quoteSurface.slices, SliceLess) && |RecordedSets()| == |quoteSurface.slices|
              && expiry in quoteSurface.Expiries()
              && (forall j :: 0 <= j < |Interpolation.Elements(strikes)| ==>
                    TransformStrike(Interpolation.Elements(strikes)[j], strikeUnit, quoteSurface.strikeUnit, forward(expiry), nm) > 0.0)
              ==> r.Ok?
    {
      if !IsFiltered() {
        return Err(NotFiltered);
      } else if expiry !in quoteSurface.Expiries() {
        return Err(ExpiryNotFound);
      }
      var i := SliceIndex(expiry);
      if i.Err? {
        return Err(i.error);
      }
      var sets := arbitrageFilter.value.arbitrageFreeSets;
      if i.value >= |sets| {
        return Err(IndexOutOfRange);
      }
      assert sets == RecordedSets();
      assert RecordedSets()[i.value].Valid();
      r := SetPriceBounds(sets[i.value], strikes, strikeUnit, quoteSurface.strikeUnit, priceUnit, boundType,
                          expiry, discountFactor(expiry), forward(expiry), nm);
    }

    /** The position `get_slice` finds for an expiry: the last slice not after it, which must
        expire exactly then. Comparing slices by expiry is comparing their expiries. */
    function SliceIndex(expiry: real): (r: Result<nat>)
      reads this, quoteSurface
      ensures r.Ok? ==> r.value < |quoteSurface.slices| && quoteSurface.slices[r.value].expiry == expiry
      ensures SortedBy(quoteSurface.slices, SliceLess) && expiry in quoteSurface.Expiries() ==> r.Ok?
    {
      var expiries := quoteSurface.Expiries();
      var i := FindLe(expiries, expiry, ExpiryLess);
      SliceIndexFound(expiries, expiry, i);
      if i == -1 then Err(LookupFailed)
      else if expiries[i] != expiry then Err(ExpiryNotFound)
      else Ok(i)
    }
  }
}
