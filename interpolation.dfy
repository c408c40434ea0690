/** One-dimensional interpolation of tabulated data (python/numcomp/interpolation.py): a grid
    `xp` sorted ascending with values `fp`, linear interpolation inside the grid (numpy's
    `interp`), and either NaN or flat extrapolation outside it. NaN is `None`. */
module Interpolation {
  import opened Common
  import opened Sorting

  datatype InterpolationType = Linear | NaturalCubicSpline | ClampedCubicSpline | PiecewiseMonotoneCubic | Pchip

  datatype ExtrapolationType = NanExtrapolation | FlatExtrapolation

  /** A numpy scalar or a one-dimensional array. */
  datatype ScalarOrArray = Scalar(v: real) | Array(elements: seq<real>)

  /** The values held, a scalar being a one-element array. */
  function Elements(x: ScalarOrArray): seq<real> {
    match x
    case Scalar(v) => [v]
    case Array(elements) => elements
  }

  /** `size`: the element count of an array, 1 for a scalar. */
  function Size(x: ScalarOrArray): (n: nat)
    ensures n == |Elements(x)|
    ensures x.Scalar? ==> n == 1
  {
    match x
    case Scalar(_) => 1
    case Array(elements) => |elements|
  }

  /** Python's `<` on floats, as a relation for the `bisect` primitives. */
  predicate RealLess(a: real, b: real) {
    a < b
  }

  /** The straight line through (x0, y0) and (x1, y1), evaluated at x. */
  function Lerp(x0: real, x1: real, y0: real, y1: real, x: real): (y: real)
    requires x0 < x1
    ensures x == x0 ==> y == y0
    ensures x == x1 ==> y == y1
  {
    y0 + (y1 - y0) * ((x - x0) / (x1 - x0))
  }

  /** numpy's `interp(z, xp, fp)`: `fp[0]` left of the grid, the last value from the last grid
      point on, and the straight line between the two grid points around `z` otherwise. */
  function Interp(xp: seq<real>, fp: seq<real>, z: real): (r: real)
    requires |xp| == |fp| >= 1
    ensures z < xp[0] ==> r == fp[0]
    ensures (forall j :: 0 <= j < |xp| ==> xp[j] <= z) ==> r == fp[|fp| - 1]
  {
    var i := BisectRight(xp, z, RealLess);
    if i == 0 then fp[0]
    else if i == |xp| then fp[|fp| - 1]
    else Lerp(xp[i - 1], xp[i], fp[i - 1], fp[i], z)
  }

  /** On a strictly increasing grid, numpy's `interp` reproduces the data at every grid point. */
  lemma InterpHitsData(xp: seq<real>, fp: seq<real>, j: int)
    requires |xp| == |fp| && 0 <= j < |xp|
    requires StrictlySortedBy(xp, RealLess)
    ensures Interp(xp, fp, xp[j]) == fp[j]
  {
    var i := BisectRight(xp, xp[j], RealLess);
    if j + 1 < |xp| {
      assert RealLess(xp[j], xp[j + 1]);
    }
    assert !RealLess(xp[j], xp[j]);
    assert i == j + 1;
  }

  /** `_exceeds_lhs`. */
  predicate ExceedsLhs(xp: seq<real>, z: real)
    requires |xp| >= 1
  {
    z < xp[0]
  }

  /** `_exceeds_rhs`. */
  predicate ExceedsRhs(xp: seq<real>, z: real)
    requires |xp| >= 1
  {
    z > xp[|xp| - 1]
  }

  /** `_get_extrapolation_masks`: the points left or right of the grid. */
  function ExtrapolationMasks(xp: seq<real>, xs: seq<real>): (m: seq<bool>)
    requires |xp| >= 1
    ensures |m| == |xs|
    ensures forall i :: 0 <= i < |xs| ==> (m[i] <==> ExceedsLhs(xp, xs[i]) || ExceedsRhs(xp, xs[i]))
  {
    seq(|xs|, i requires 0 <= i < |xs| => ExceedsLhs(xp, xs[i]) || ExceedsRhs(xp, xs[i]))
  }

  /** On an ascending grid a point is masked exactly when no two grid points enclose it. */
  lemma MaskedIffNotEnclosed(xp: seq<real>, z: real)
    requires |xp| >= 1 && SortedBy(xp, RealLess)
    ensures ExceedsLhs(xp, z) || ExceedsRhs(xp, z)
            <==> !exists j, k :: 0 <= j < |xp| && 0 <= k < |xp| && xp[j] <= z <= xp[k]
  {
    if !(ExceedsLhs(xp, z) || ExceedsRhs(xp, z)) {
      assert xp[0] <= z <= xp[|xp| - 1];
    } else {
      forall j, k | 0 <= j < |xp| && 0 <= k < |xp|
        ensures !(xp[j] <= z <= xp[k])
      {
        assert !RealLess(xp[j], xp[0]) && !RealLess(xp[|xp| - 1], xp[k]);
      }
    }
  }

  /** The number of set masks among the first `n` (`np.sum(extra_masks)` for `n = |m|`). */
  function CountTrue(m: seq<bool>, n: nat): (c: nat)
    requires n <= |m|
    ensures c <= n
  {
    if n == 0 then 0 else CountTrue(m, n - 1) + (if m[n - 1] then 1 else 0)
  }

  /** A zero count means no mask among the first `n` is set. */
  lemma {:induction false} NoneCounted(m: seq<bool>, n: nat)
    requires n <= |m| && CountTrue(m, n) == 0
    ensures forall i :: 0 <= i < n ==> !m[i]
  {
    if n > 0 {
      NoneCounted(m, n - 1);
    }
  }

  /** `x[masks]` over the first `n` elements: those whose mask is set, in order. */
  function Select(xs: seq<real>, m: seq<bool>, n: nat): (r: seq<real>)
    requires |m| == |xs| && n <= |xs|
    ensures |r| == CountTrue(m, n)
  {
    if n == 0 then [] else Select(xs, m, n - 1) + (if m[n - 1] then [xs[n - 1]] else [])
  }

  /** A masked element sits in `x[masks]` after the masked elements before it. */
  lemma {:induction false} SelectAt(xs: seq<real>, m: seq<bool>, n: nat, j: int)
    requires |m| == |xs| && 0 <= j < n <= |xs| && m[j]
    ensures CountTrue(m, j) < CountTrue(m, n)
    ensures Select(xs, m, n)[CountTrue(m, j)] == xs[j]
  {
    if j < n - 1 {
      SelectAt(xs, m, n - 1, j);
    }
  }

  /** A built interpolator: the data and the two method tags. */
  datatype InternalInterpolator = InternalInterpolator(xp: seq<real>, fp: seq<real>,
                                                       interType: InterpolationType,
                                                       extraType: ExtrapolationType)
  {
    /** The documented demands on the data: values correspond to grid points, the grid is
        sorted ascending and (since `x[0]` is read) not empty. */
    ghost predicate Valid() {
      |xp| == |fp| >= 1 && SortedBy(xp, RealLess)
    }

    /** A point the extrapolation masks select. */
    predicate Masked(z: real)
      requires |xp| >= 1
    {
      ExceedsLhs(xp, z) || ExceedsRhs(xp, z)
    }

    /** `_extrapolate` at one point: NaN under NaN extrapolation; under flat extrapolation the
        last value right of the grid (written last, so it wins), the first value left of it. */
    function ExtrapolatedValue(z: real): Option<real>
      requires |xp| == |fp| >= 1
    {
      if extraType == NanExtrapolation then None
      else if ExceedsRhs(xp, z) then Some(fp[|fp| - 1])
      else if ExceedsLhs(xp, z) then Some(fp[0])
      else None
    }

    /** The value `__call__` yields at one point. */
    function CallValue(z: real): Option<real>
      requires |xp| == |fp| >= 1
    {
      if Masked(z) then ExtrapolatedValue(z) else Some(Interp(xp, fp, z))
    }

    /** `_extrapolate`: start from NaN everywhere; unless the type is NaN, write the first
        value through the left mask, then the last value through the right mask. */
    method Extrapolate(xExtra: seq<real>) returns (yExtra: array<Option<real>>)
      requires |xp| == |fp| >= 1
      ensures fresh(yExtra) && yExtra.Length == |xExtra|
      ensures forall i :: 0 <= i < |xExtra| ==> yExtra[i] == ExtrapolatedValue(xExtra[i])
    {
      yExtra := new Option<real>[|xExtra|](_ => None);
      if extraType == NanExtrapolation {
        return;
      }
      var i := 0;
      while i < |xExtra|
        invariant 0 <= i <= |xExtra|
        invariant forall j :: 0 <= j < i ==> yExtra[j] == (if ExceedsLhs(xp, xExtra[j]) then Some(fp[0]) else None)
        invariant forall j :: i <= j < |xExtra| ==> yExtra[j] == None
      {
        if ExceedsLhs(xp, xExtra[i]) {
          yExtra[i] := Some(fp[0]);
        }
        i := i + 1;
      }
      i := 0;
      while i < |xExtra|
        invariant 0 <= i <= |xExtra|
        invariant forall j :: 0 <= j < i ==> yExtra[j] == ExtrapolatedValue(xExtra[j])
        invariant forall j :: i <= j < |xExtra| ==> yExtra[j] == (if ExceedsLhs(xp, xExtra[j]) then Some(fp[0]) else None)
      {
        if ExceedsRhs(xp, xExtra[i]) {
          yExtra[i] := Some(fp[|fp| - 1]);
        }
        i := i + 1;
      }
    }

    /** `__call__`: interpolate every point, and when some points are masked overwrite exactly
        those entries with their extrapolated values. */
    method Call(xs: seq<real>) returns (y: array<Option<real>>)
      requires |xp| == |fp| >= 1
      ensures fresh(y) && y.Length == |xs|
      ensures forall i :: 0 <= i < |xs| ==> y[i] == CallValue(xs[i])
    {
      y := new Option<real>[|xs|](i requires 0 <= i < |xs| => Some(Interp(xp, fp, xs[i])));
      var masks := ExtrapolationMasks(xp, xs);
      if CountTrue(masks, |masks|) == 0 {
        NoneCounted(masks, |masks|);
        return;
      }
      var xExtra := Select(xs, masks, |xs|);
      var yExtra := Extrapolate(xExtra);
      Scatter(y, masks, yExtra[..]);
      forall j | 0 <= j < |xs| && masks[j]
        ensures y[j] == CallValue(xs[j])
      {
        SelectAt(xs, masks, |xs|, j);
      }
    }
  }

  /** `y[masks] = values`: the masked entries receive the values in order, the others keep
      what they held. */
  method Scatter<T>(y: array<T>, masks: seq<bool>, values: seq<T>)
    requires y.Length == |masks| && |values| == CountTrue(masks, |masks|)
    modifies y
    ensures forall j :: 0 <= j < |masks| && masks[j] ==> CountTrue(masks, j) < |values|
    ensures forall j :: 0 <= j < |masks| ==>
              y[j] == if masks[j] then values[CountTrue(masks, j)] else old(y[j])
  {
    ghost var y0 := y[..];
    var i, k := 0, 0;
    while i < |masks|
      invariant 0 <= i <= |masks| && k == CountTrue(masks, i)
      invariant forall j :: 0 <= j < i && masks[j] ==> CountTrue(masks, j) < |values| && y[j] == values[CountTrue(masks, j)]
      invariant forall j :: 0 <= j < |masks| && !(j < i && masks[j]) ==> y[j] == y0[j]
    {
      if masks[i] {
        CountBelowTotal(masks, i, |masks|);
        y[i] := values[k];
        k := k + 1;
      }
      i := i + 1;
    }
  }

  /** The count before a set mask is below the count of any longer prefix holding it. */
  lemma {:induction false} CountBelowTotal(m: seq<bool>, j: int, n: nat)
    requires 0 <= j < n <= |m| && m[j]
    ensures CountTrue(m, j) < CountTrue(m, n)
  {
    if j < n - 1 {
      CountBelowTotal(m, j, n - 1);
    }
  }

  /** `_get_interpolant` at construction: only linear interpolation is built, any other type
      raises. */
  function NewInternalInterpolator(xp: seq<real>, fp: seq<real>, interType: InterpolationType,
                                   extraType: ExtrapolationType): (r: Result<InternalInterpolator>)
    ensures r.Ok? <==> interType == Linear
    ensures r.Err? ==> r.error == UnhandledInterpolationType
    ensures r.Ok? ==> r.value.xp == xp && r.value.fp == fp && r.value.extraType == extraType
  {
    if interType == Linear then Ok(InternalInterpolator(xp, fp, interType, extraType))
    else Err(UnhandledInterpolationType)
  }

  /** Points inside the grid keep the interpolated value. */
  lemma InsideKeepsInterpolant(ip: InternalInterpolator, z: real)
    requires ip.Valid() && ip.xp[0] <= z <= ip.xp[|ip.xp| - 1]
    ensures ip.CallValue(z) == Some(Interp(ip.xp, ip.fp, z))
  {
  }

  /** Under NaN extrapolation a result is NaN exactly at the points outside the grid. */
  lemma NanExactlyOutside(ip: InternalInterpolator, z: real)
    requires ip.Valid() && ip.extraType == NanExtrapolation
    ensures ip.CallValue(z).None? <==> z < ip.xp[0] || z > ip.xp[|ip.xp| - 1]
  {
  }

  /** Flat extrapolation continues the first value to the left and the last value to the
      right; on an ascending grid it therefore agrees with numpy's `interp` everywhere. */
  lemma FlatAgreesWithInterp(ip: InternalInterpolator, z: real)
    requires ip.Valid() && ip.extraType == FlatExtrapolation
    ensures z < ip.xp[0] ==> ip.CallValue(z) == Some(ip.fp[0])
    ensures z > ip.xp[|ip.xp| - 1] ==> ip.CallValue(z) == Some(ip.fp[|ip.fp| - 1])
    ensures ip.CallValue(z) == Some(Interp(ip.xp, ip.fp, z))
  {
    var xp := ip.xp;
    if z > xp[|xp| - 1] {
      forall j | 0 <= j < |xp|
        ensures xp[j] <= z
      {
        assert !RealLess(xp[|xp| - 1], xp[j]);
      }
    }
  }
}
