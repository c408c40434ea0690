/** Building a quote surface from arrays of input data
    (python/qproc/internal/quote_surface_construction.py): one price (or one bid/ask pair) per
    row, rows grouped into slices by expiry in the order they come. */
module QuoteSurfaceConstruction {
  import opened Common
  import opened Sorting
  import opened QuoteStructures

  /** An option-price array as numpy holds it: a vector, or a matrix of `rows` by `cols`
      stored row after row. */
  datatype PriceArray = Vector(values: seq<real>) | Matrix(rows: nat, cols: nat, entries: seq<real>)

  /** A matrix holds exactly `rows * cols` entries. */
  predicate WellShaped(p: PriceArray) {
    p.Matrix? ==> |p.entries| == p.rows * p.cols
  }

  /** A two-column matrix: one bid and one ask per row. */
  predicate IsSided(p: PriceArray) {
    p.Matrix? && p.cols == 2
  }

  /** The entries of the array in storage order, which is what `reshape((-1, 1))` reads. */
  function Flat(p: PriceArray): seq<real> {
    match p
    case Vector(v) => v
    case Matrix(_, _, e) => e
  }

  /** `_get_sided_prices`: a two-column matrix is taken as it is, one bid/ask pair per row;
      any other array is flattened and every entry used as both bid and ask. */
  function GetSidedPrices(p: PriceArray): (r: seq<(real, real)>)
    requires WellShaped(p)
    ensures IsSided(p) ==> |r| == p.rows
    ensures !IsSided(p) ==> |r| == |Flat(p)|
  {
    if IsSided(p) then
      assert |p.entries| == 2 * p.rows;
      seq(p.rows, i requires 0 <= i < p.rows => (p.entries[2 * i], p.entries[2 * i + 1]))
    else
      seq(|Flat(p)|, i requires 0 <= i < |Flat(p)| => (Flat(p)[i], Flat(p)[i]))
  }

  /** The bids and asks of a row list laid out again row after row. */
  function Interleave(r: seq<(real, real)>): (e: seq<real>)
    ensures |e| == 2 * |r|
  {
    if r == [] then [] else Interleave(r[..|r| - 1]) + [r[|r| - 1].0, r[|r| - 1].1]
  }

  /** Position `2i` of the interleaving is the bid of row `i`, position `2i + 1` its ask. */
  lemma {:induction false} InterleaveAt(r: seq<(real, real)>, i: nat)
    requires i < |r|
    ensures Interleave(r)[2 * i] == r[i].0 && Interleave(r)[2 * i + 1] == r[i].1
  {
    if i < |r| - 1 {
      InterleaveAt(r[..|r| - 1], i);
    }
  }

  /** Nothing is lost or invented: the rows of a sided matrix lay out to its entries again,
      and otherwise every entry is one row whose bid, ask and mid are all that entry. */
  lemma SidedPricesKeepEntries(p: PriceArray)
    requires WellShaped(p)
    ensures IsSided(p) ==> Interleave(GetSidedPrices(p)) == p.entries
    ensures !IsSided(p) ==> forall i :: 0 <= i < |Flat(p)| ==>
              var q := GetSidedPrices(p)[i];
              q.0 == q.1 == Flat(p)[i] == Quote(q.0, q.1, Infinity, 0.0).Mid()
  {
    if IsSided(p) {
      var r := GetSidedPrices(p);
      assert |p.entries| == 2 * |r|;
      assert forall i :: 0 <= i < |r| ==> r[i] == (p.entries[2 * i], p.entries[2 * i + 1]);
      InterleavePairs(p.entries, r);
    }
  }

  /** Rows read off a list two entries at a time lay out to that list again. */
  lemma InterleavePairs(e: seq<real>, r: seq<(real, real)>)
    requires |e| == 2 * |r|
    requires forall i :: 0 <= i < |r| ==> r[i] == (e[2 * i], e[2 * i + 1])
    ensures Interleave(r) == e
  {
    forall j | 0 <= j < |e|
      ensures Interleave(r)[j] == e[j]
    {
      var h := j / 2;
      assert j == 2 * h || j == 2 * h + 1;
      InterleaveAt(r, h);
    }
  }

  /** The quote row `i` stands for. */
  function RowQuote(sided: seq<(real, real)>, strikes: seq<real>, liquidityProxies: seq<real>, i: nat): (q: Quote)
    requires i < |sided| && i < |strikes| && i < |liquidityProxies|
    ensures q.bid == sided[i].0 && q.ask == sided[i].1
    ensures q.strike == Finite(strikes[i]) && q.liqProxy == liquidityProxies[i]
  {
    Quote(sided[i].0, sided[i].1, Finite(strikes[i]), liquidityProxies[i])
  }

  /** What `_fill_quote_surface` makes of the rows from `i` on, once the earlier rows have gone
      through: an expiry that is missing or a strike or liquidity proxy that is missing raises
      IndexError, and an expiry below the previous row's raises RuntimeError. The expiry is
      read first, checked next, and the strike and proxy read last. */
  function FillOutcome(n: nat, strikes: seq<real>, expiries: seq<real>, liquidityProxies: seq<real>, i: nat): Result<()>
    decreases n - i
  {
    if i >= n then Ok(())
    else if i >= |expiries| then Err(IndexOutOfRange)
    else if i > 0 && i - 1 < |expiries| && expiries[i] < expiries[i - 1] then Err(ExpiryNotAscending)
    else if i >= |strikes| || i >= |liquidityProxies| then Err(IndexOutOfRange)
    else FillOutcome(n, strikes, expiries, liquidityProxies, i + 1)
  }

  /** The first `n` expiries never go down. */
  ghost predicate Ascending(expiries: seq<real>, n: nat) {
    n <= |expiries| && forall a, b :: 0 <= a < b < n ==> expiries[a] <= expiries[b]
  }

  /** The rows go through exactly when every one of them has an expiry, a strike and a
      liquidity proxy and the expiries are in ascending order; when all three arrays are long
      enough, a failure is always the ordering one. */
  lemma FillOutcomeOk(n: nat, strikes: seq<real>, expiries: seq<real>, liquidityProxies: seq<real>)
    ensures FillOutcome(n, strikes, expiries, liquidityProxies, 0).Ok? <==>
              n <= |strikes| && n <= |liquidityProxies| && Ascending(expiries, n)
    ensures FillOutcome(n, strikes, expiries, liquidityProxies, 0).Err? && n <= |expiries| && n <= |strikes| && n <= |liquidityProxies| ==>
              FillOutcome(n, strikes, expiries, liquidityProxies, 0).error == ExpiryNotAscending
  {
    FillOutcomeFrom(n, strikes, expiries, liquidityProxies, 0);
  }

  /** `FillOutcomeOk` for the rows from `i` on, given that the rows before `i` went through. */
  lemma {:induction false} FillOutcomeFrom(n: nat, strikes: seq<real>, expiries: seq<real>, liquidityProxies: seq<real>, i: nat)
    requires i <= n
    requires i <= |strikes| && i <= |liquidityProxies| && Ascending(expiries, i)
    ensures FillOutcome(n, strikes, expiries, liquidityProxies, i).Ok? <==>
              n <= |strikes| && n <= |liquidityProxies| && Ascending(expiries, n)
    ensures FillOutcome(n, strikes, expiries, liquidityProxies, i).Err? && n <= |expiries| && n <= |strikes| && n <= |liquidityProxies| ==>
              FillOutcome(n, strikes, expiries, liquidityProxies, i).error == ExpiryNotAscending
    decreases n - i
  {
    if i < n && i < |expiries| && !(i > 0 && expiries[i] < expiries[i - 1]) && i < |strikes| && i < |liquidityProxies| {
      forall a, b | 0 <= a < b < i + 1
        ensures expiries[a] <= expiries[b]
      {
        if b == i && a < i - 1 {
          assert expiries[a] <= expiries[i - 1];
        }
      }
      FillOutcomeFrom(n, strikes, expiries, liquidityProxies, i + 1);
    } else if i < n && i < |expiries| && i > 0 && expiries[i] < expiries[i - 1] {
      assert !Ascending(expiries, n) by {
        assert i - 1 < i < n;
      }
    }
  }

  /** The expiries the first `m` rows open slices for: a row opens one when its expiry is
      above the last one opened (the first row always does). */
  function SliceExpiries(expiries: seq<real>, m: nat): (d: seq<real>)
    requires m <= |expiries|
    ensures m > 0 ==> |d| > 0 && expiries[m - 1] <= d[|d| - 1]
  {
    if m == 0 then []
    else
      var d := SliceExpiries(expiries, m - 1);
      if |d| == 0 || expiries[m - 1] > d[|d| - 1] then d + [expiries[m - 1]] else d
  }

  /** On ascending expiries the slice expiries are strictly ascending, and the last one is
      the expiry of the last row. */
  lemma {:induction false} SliceExpiriesAscending(expiries: seq<real>, m: nat)
    requires Ascending(expiries, m)
    ensures var d := SliceExpiries(expiries, m);
            && (forall a, b :: 0 <= a < b < |d| ==> d[a] < d[b])
            && (m > 0 ==> d[|d| - 1] == expiries[m - 1])
  {
    if m > 0 {
      SliceExpiriesAscending(expiries, m - 1);
      if m > 1 {
        assert expiries[m - 2] <= expiries[m - 1];
      }
    }
  }

  /** On ascending expiries every row's expiry is a slice expiry. */
  lemma {:induction false} SliceExpiriesCoverRows(expiries: seq<real>, m: nat)
    requires Ascending(expiries, m)
    ensures forall i :: 0 <= i < m ==> expiries[i] in SliceExpiries(expiries, m)
  {
    if m > 0 {
      SliceExpiriesCoverRows(expiries, m - 1);
      SliceExpiriesAscending(expiries, m);
      var d := SliceExpiries(expiries, m - 1);
      var d' := SliceExpiries(expiries, m);
      assert d' == d || d' == d + [expiries[m - 1]];
      assert expiries[m - 1] in d';
    }
  }

  /** Every slice expiry is the expiry of some row: no slice is opened for nothing. */
  lemma {:induction false} SliceExpiriesFromRows(expiries: seq<real>, m: nat)
    requires m <= |expiries|
    ensures forall k :: 0 <= k < |SliceExpiries(expiries, m)| ==> SliceExpiries(expiries, m)[k] in expiries[..m]
  {
    if m > 0 {
      SliceExpiriesFromRows(expiries, m - 1);
      assert expiries[..m] == expiries[..m - 1] + [expiries[m - 1]];
    }
  }

  /** The quotes the slice expiring at `e` holds after the first `m` rows: each row with that
      expiry inserted in row order with `insort_left`. */
  function SliceRows(sided: seq<(real, real)>, strikes: seq<real>, liquidityProxies: seq<real>, expiries: seq<real>,
                     m: nat, e: real): (r: seq<Quote>)
    requires m <= |sided| && m <= |strikes| && m <= |liquidityProxies| && m <= |expiries|
  {
    if m == 0 then []
    else
      var prev := SliceRows(sided, strikes, liquidityProxies, expiries, m - 1, e);
      if expiries[m - 1] == e then InsortLeft(prev, RowQuote(sided, strikes, liquidityProxies, m - 1), QuoteLess) else prev
  }

  /** The rows among the first `m` whose expiry is `e`, in row order. */
  function RowsWithExpiry(sided: seq<(real, real)>, strikes: seq<real>, liquidityProxies: seq<real>, expiries: seq<real>,
                          m: nat, e: real): (r: seq<Quote>)
    requires m <= |sided| && m <= |strikes| && m <= |liquidityProxies| && m <= |expiries|
    ensures |r| <= m
  {
    if m == 0 then []
    else
      var prev := RowsWithExpiry(sided, strikes, liquidityProxies, expiries, m - 1, e);
      if expiries[m - 1] == e then prev + [RowQuote(sided, strikes, liquidityProxies, m - 1)] else prev
  }

  /** A slice holds exactly the quotes of the rows with its expiry, sorted by strike. */
  lemma {:induction false} SliceRowsSorted(sided: seq<(real, real)>, strikes: seq<real>, liquidityProxies: seq<real>,
                                           expiries: seq<real>, m: nat, e: real)
    requires m <= |sided| && m <= |strikes| && m <= |liquidityProxies| && m <= |expiries|
    ensures var r := SliceRows(sided, strikes, liquidityProxies, expiries, m, e);
            && SortedBy(r, QuoteLess)
            && multiset(r) == multiset(RowsWithExpiry(sided, strikes, liquidityProxies, expiries, m, e))
  {
    if m > 0 {
      SliceRowsSorted(sided, strikes, liquidityProxies, expiries, m - 1, e);
      var prev := SliceRows(sided, strikes, liquidityProxies, expiries, m - 1, e);
      if expiries[m - 1] == e {
        var q := RowQuote(sided, strikes, liquidityProxies, m - 1);
        QuoteLessIsStrictWeakOrder(prev + [q]);
        InsortLeftSorted(prev, q, QuoteLess);
      }
    }
  }

  /** A slice no row has the expiry of holds nothing. */
  lemma {:induction false} SliceRowsAbsent(sided: seq<(real, real)>, strikes: seq<real>, liquidityProxies: seq<real>,
                                           expiries: seq<real>, m: nat, e: real)
    requires m <= |sided| && m <= |strikes| && m <= |liquidityProxies| && m <= |expiries|
    requires forall j :: 0 <= j < m ==> expiries[j] != e
    ensures SliceRows(sided, strikes, liquidityProxies, expiries, m, e) == []
  {
    if m > 0 {
      SliceRowsAbsent(sided, strikes, liquidityProxies, expiries, m - 1, e);
    }
  }

  /** One more row on ascending expiries: either it opens a slice above every earlier one,
      which holds no quote yet, or its expiry is that of the last slice and of no other. */
  lemma FillStep(sided: seq<(real, real)>, strikes: seq<real>, liquidityProxies: seq<real>, expiries: seq<real>, i: nat)
    requires i < |sided| && i <= |strikes| && i <= |liquidityProxies| && i < |expiries|
    requires Ascending(expiries, i + 1)
    ensures var d, d', e := SliceExpiries(expiries, i), SliceExpiries(expiries, i + 1), expiries[i];
            && (i == 0 || e > expiries[i - 1] ==>
                  && d' == d + [e] && (forall k :: 0 <= k < |d| ==> d[k] < e)
                  && SliceRows(sided, strikes, liquidityProxies, expiries, i, e) == [])
            && (!(i == 0 || e > expiries[i - 1]) ==> d' == d)
            && |d'| > 0 && d'[|d'| - 1] == e && forall k :: 0 <= k < |d'| - 1 ==> d'[k] != e
  {
    SliceExpiriesAscending(expiries, i);
    var e := expiries[i];
    if i > 0 {
      assert expiries[i - 1] <= e;
      if e > expiries[i - 1] {
        forall j | 0 <= j < i
          ensures expiries[j] != e
        {
          assert expiries[j] <= expiries[i - 1];
        }
        SliceRowsAbsent(sided, strikes, liquidityProxies, expiries, i, e);
      }
    } else {
      SliceRowsAbsent(sided, strikes, liquidityProxies, expiries, i, e);
    }
  }

  /** Slices are distinct objects. */
  ghost predicate DistinctObjects(slices: seq<QuoteSlice>) {
    forall a, b :: 0 <= a < b < |slices| ==> slices[a] != slices[b]
  }

  /** The surface holds one slice per expiry of `d`, in order, each with the slice the first
      `m` rows make for that expiry. */
  ghost predicate Holds(surface: QuoteSurface, sided: seq<(real, real)>, strikes: seq<real>, liquidityProxies: seq<real>,
                        expiries: seq<real>, m: nat, d: seq<real>)
    reads surface, surface.slices
    requires m <= |sided| && m <= |strikes| && m <= |liquidityProxies| && m <= |expiries|
  {
    && |surface.slices| == |d| && DistinctObjects(surface.slices)
    && forall k :: 0 <= k < |d| ==>
         && surface.slices[k].expiry == d[k]
         && surface.slices[k].quotes == SliceRows(sided, strikes, liquidityProxies, expiries, m, d[k])
  }

  /** The surface after the first `i` rows: one slice per slice expiry, in order, each holding
      the rows of its expiry. */
  ghost predicate Filled(surface: QuoteSurface, sided: seq<(real, real)>, strikes: seq<real>, liquidityProxies: seq<real>,
                         expiries: seq<real>, i: nat)
    reads surface, surface.slices
    requires i <= |sided| && i <= |strikes| && i <= |liquidityProxies| && i <= |expiries|
  {
    Holds(surface, sided, strikes, liquidityProxies, expiries, i, SliceExpiries(expiries, i))
  }

  /** `_fill_quote_surface` on the empty surface `get_quote_surface` hands it. Each row whose
      expiry is above the previous one opens a new slice, appended to the surface, and every
      row's quote goes into the slice opened last. The outcome is `FillOutcome`'s; on success
      the surface holds one slice per slice expiry, each with the rows of its expiry, and
      as many quotes in all as there are rows. */
  method FillQuoteSurface(sided: seq<(real, real)>, strikes: seq<real>, expiries: seq<real>, liquidityProxies: seq<real>,
                          surface: QuoteSurface) returns (r: Result<()>)
    requires surface.slices == []
    modifies surface
    ensures surface.priceUnit == old(surface.priceUnit) && surface.strikeUnit == old(surface.strikeUnit)
    ensures r == FillOutcome(|sided|, strikes, expiries, liquidityProxies, 0)
    ensures r.Ok? ==>
              && |sided| <= |strikes| && |sided| <= |liquidityProxies| && |sided| <= |expiries|
              && Filled(surface, sided, strikes, liquidityProxies, expiries, |sided|)
              && TotalQuotes(surface.slices) == |sided|
  {
    var n := |sided|;
    var currentExpiry := 0.0;
    var quoteSlice: QuoteSlice? := null;
    for i := 0 to n
      invariant i <= |strikes| && i <= |liquidityProxies| && Ascending(expiries, i)
      invariant FillOutcome(n, strikes, expiries, liquidityProxies, 0) == FillOutcome(n, strikes, expiries, liquidityProxies, i)
      invariant surface.priceUnit == old(surface.priceUnit) && surface.strikeUnit == old(surface.strikeUnit)
      invariant Filled(surface, sided, strikes, liquidityProxies, expiries, i)
      invariant i > 0 ==> currentExpiry == expiries[i - 1] && |surface.slices| > 0 && quoteSlice == surface.slices[|surface.slices| - 1]
      invariant quoteSlice != null ==> fresh(quoteSlice)
      invariant TotalQuotes(surface.slices) == i
    {
      if i >= |expiries| {
        return Err(IndexOutOfRange);
      }
      if i > 0 && expiries[i] < currentExpiry {
        return Err(ExpiryNotAscending);
      }
      AscendingExtends(expiries, i);
      var row;
      row, quoteSlice, currentExpiry := FillRow(surface, quoteSlice, currentExpiry, sided, strikes, liquidityProxies, expiries, i);
      if row.Err? {
        return row;
      }
    }
    r := Ok(());
  }

  /** The body of the row loop once the row's expiry has passed its check: a new slice when
      the expiry is above the current one, then the row's quote added to the current slice; a
      missing strike or liquidity proxy raises IndexError in between. */
  method FillRow(surface: QuoteSurface, quoteSlice: QuoteSlice?, currentExpiry: real, sided: seq<(real, real)>, strikes: seq<real>,
                 liquidityProxies: seq<real>, expiries: seq<real>, i: nat)
    returns (r: Result<()>, slice: QuoteSlice, expiry: real)
    requires i < |sided| && i < |expiries| && i <= |strikes| && i <= |liquidityProxies|
    requires Ascending(expiries, i + 1)
    requires Filled(surface, sided, strikes, liquidityProxies, expiries, i)
    requires i > 0 ==> currentExpiry == expiries[i - 1] && |surface.slices| > 0 && quoteSlice == surface.slices[|surface.slices| - 1]
    modifies surface, quoteSlice
    ensures surface.priceUnit == old(surface.priceUnit) && surface.strikeUnit == old(surface.strikeUnit)
    ensures fresh(slice) || slice == quoteSlice
    ensures r.Err? <==> i >= |strikes| || i >= |liquidityProxies|
    ensures r.Err? ==> r.error == IndexOutOfRange
    ensures r.Ok? ==>
              && Filled(surface, sided, strikes, liquidityProxies, expiries, i + 1)
              && expiry == expiries[i] && |surface.slices| > 0 && slice == surface.slices[|surface.slices| - 1]
              && TotalQuotes(surface.slices) == old(TotalQuotes(surface.slices)) + 1
  {
    ghost var total := TotalQuotes(surface.slices);
    expiry := expiries[i];
    FillStep(sided, strikes, liquidityProxies, expiries, i);
    if i == 0 || expiry > currentExpiry {
      slice := NewSlice(surface, sided, strikes, liquidityProxies, expiries, i);
    } else {
      slice := quoteSlice;
      expiry := currentExpiry;
    }
    assert Holds(surface, sided, strikes, liquidityProxies, expiries, i, SliceExpiries(expiries, i + 1));
    assert |surface.slices| > 0 && slice == surface.slices[|surface.slices| - 1] && expiry == expiries[i];
    assert TotalQuotes(surface.slices) == total;
    assert surface.priceUnit == old(surface.priceUnit) && surface.strikeUnit == old(surface.strikeUnit);
    if i >= |strikes| || i >= |liquidityProxies| {
      return Err(IndexOutOfRange), slice, expiry;
    }
    PlaceRow(surface, slice, sided, strikes, liquidityProxies, expiries, i);
    r := Ok(());
  }

  /** A row whose expiry is not below the previous row's keeps the expiries ascending. */
  lemma AscendingExtends(expiries: seq<real>, i: nat)
    requires Ascending(expiries, i) && i < |expiries|
    requires i > 0 ==> expiries[i - 1] <= expiries[i]
    ensures Ascending(expiries, i + 1)
  {
    forall a, b | 0 <= a < b < i + 1
      ensures expiries[a] <= expiries[b]
    {
      if b == i && a < i - 1 {
        assert expiries[a] <= expiries[i - 1];
      }
    }
  }

  /** `QuoteSlice(expiry=expiry)` and `add_slice` for a row whose expiry is above every
      earlier one: the surface then has a slice for every slice expiry up to this row. */
  method NewSlice(surface: QuoteSurface, sided: seq<(real, real)>, strikes: seq<real>, liquidityProxies: seq<real>,
                  expiries: seq<real>, i: nat) returns (s: QuoteSlice)
    requires i < |sided| && i <= |strikes| && i <= |liquidityProxies| && i < |expiries|
    requires Ascending(expiries, i + 1) && (i == 0 || expiries[i] > expiries[i - 1])
    requires Filled(surface, sided, strikes, liquidityProxies, expiries, i)
    modifies surface
    ensures fresh(s) && |surface.slices| > 0 && surface.slices[|surface.slices| - 1] == s && s.expiry == expiries[i]
    ensures surface.priceUnit == old(surface.priceUnit) && surface.strikeUnit == old(surface.strikeUnit)
    ensures Holds(surface, sided, strikes, liquidityProxies, expiries, i, SliceExpiries(expiries, i + 1))
    ensures TotalQuotes(surface.slices) == old(TotalQuotes(surface.slices))
  {
    FillStep(sided, strikes, liquidityProxies, expiries, i);
    s := new QuoteSlice(expiries[i]);
    OpenSlice(surface, s, sided, strikes, liquidityProxies, expiries, i);
  }

  /** `add_slice` of the slice a row opens: its expiry is above every expiry on the surface,
      so it lands at the end, and it holds no quote, as no earlier row has its expiry. */
  method OpenSlice(surface: QuoteSurface, s: QuoteSlice, sided: seq<(real, real)>, strikes: seq<real>, liquidityProxies: seq<real>,
                   expiries: seq<real>, i: nat)
    requires i < |sided| && i <= |strikes| && i <= |liquidityProxies| && i < |expiries|
    requires s !in surface.slices && s.quotes == [] && s.expiry == expiries[i]
    requires Holds(surface, sided, strikes, liquidityProxies, expiries, i, SliceExpiries(expiries, i))
    requires forall k :: 0 <= k < |surface.slices| ==> surface.slices[k].expiry < s.expiry
    requires SliceRows(sided, strikes, liquidityProxies, expiries, i, s.expiry) == []
    modifies surface
    ensures surface.slices == old(surface.slices) + [s]
    ensures surface.priceUnit == old(surface.priceUnit) && surface.strikeUnit == old(surface.strikeUnit)
    ensures Holds(surface, sided, strikes, liquidityProxies, expiries, i, SliceExpiries(expiries, i) + [s.expiry])
    ensures TotalQuotes(surface.slices) == old(TotalQuotes(surface.slices))
  {
    ghost var before := surface.slices;
    ghost var total := TotalQuotes(before);
    InsortLeftAppends(surface.slices, s, SliceLess);
    surface.AddSlice(s);
    assert TotalQuotes(before) == total;
    assert surface.slices[..|surface.slices| - 1] == before;
    ghost var d := SliceExpiries(expiries, i) + [s.expiry];
    forall k | 0 <= k < |d|
      ensures surface.slices[k].expiry == d[k]
      ensures surface.slices[k].quotes == SliceRows(sided, strikes, liquidityProxies, expiries, i, d[k])
    {
      if k < |d| - 1 {
        assert surface.slices[k] == old(surface.slices)[k];
      }
    }
  }

  /** `add_quote` of a row on the last slice, the one of its expiry, which no other slice has:
      that slice gets the row and the others stay as they were. */
  method PlaceRow(surface: QuoteSurface, s: QuoteSlice, sided: seq<(real, real)>, strikes: seq<real>, liquidityProxies: seq<real>,
                  expiries: seq<real>, i: nat)
    requires i < |sided| && i < |strikes| && i < |liquidityProxies| && i < |expiries|
    requires Holds(surface, sided, strikes, liquidityProxies, expiries, i, SliceExpiries(expiries, i + 1))
    requires |surface.slices| > 0 && surface.slices[|surface.slices| - 1] == s
    requires var d := SliceExpiries(expiries, i + 1);
             |d| > 0 && d[|d| - 1] == expiries[i] && forall k :: 0 <= k < |d| - 1 ==> d[k] != expiries[i]
    modifies s
    ensures surface.slices == old(surface.slices)
    ensures surface.priceUnit == old(surface.priceUnit) && surface.strikeUnit == old(surface.strikeUnit)
    ensures Filled(surface, sided, strikes, liquidityProxies, expiries, i + 1)
    ensures TotalQuotes(surface.slices) == old(TotalQuotes(surface.slices)) + 1
  {
    var prefix := surface.slices[..|surface.slices| - 1];
    assert s !in prefix;
    ghost var before := TotalQuotes(prefix);
    s.AddQuote(RowQuote(sided, strikes, liquidityProxies, i));
    assert TotalQuotes(prefix) == before;
    ghost var d := SliceExpiries(expiries, i + 1);
    forall k | 0 <= k < |d|
      ensures surface.slices[k].expiry == d[k]
      ensures surface.slices[k].quotes == SliceRows(sided, strikes, liquidityProxies, expiries, i + 1, d[k])
    {
      if k < |d| - 1 {
        assert surface.slices[k] == prefix[k] != s;
      }
    }
  }

  /** `get_quote_surface`: an empty surface with the given unit tags, filled from the sided
      prices. */
  method GetQuoteSurface(prices: PriceArray, priceUnit: PriceUnit, expiries: seq<real>, strikes: seq<real>,
                         strikeUnit: StrikeUnit, liquidityProxies: seq<real>) returns (r: Result<QuoteSurface>)
    requires WellShaped(prices)
    ensures r.Ok? <==> FillOutcome(|GetSidedPrices(prices)|, strikes, expiries, liquidityProxies, 0).Ok?
    ensures r.Ok? ==>
              var sided := GetSidedPrices(prices);
              && fresh(r.value) && r.value.priceUnit == priceUnit && r.value.strikeUnit == strikeUnit
              && |sided| <= |strikes| && |sided| <= |liquidityProxies| && |sided| <= |expiries|
              && Filled(r.value, sided, strikes, liquidityProxies, expiries, |sided|)
              && TotalQuotes(r.value.slices) == |sided|
  {
    var surface := new QuoteSurface(priceUnit, strikeUnit);
    var sided := GetSidedPrices(prices);
    var filled := FillQuoteSurface(sided, strikes, expiries, liquidityProxies, surface);
    if filled.Err? {
      return Err(filled.error);
    }
    r := Ok(surface);
  }
}
