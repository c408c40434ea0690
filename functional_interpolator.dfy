/** Interpolation between functions (python/volsurface/internal/functional_interpolator.py):
    a grid of abscissae, one function per grid point, and for a query point `x` the function at
    `x` — the grid point's own function on the grid, the nearest end function outside it, and
    a weighted blend of the two bracketing functions in between. */
module FunctionalInterpolation {
  import opened Common
  import opened Sorting
  import opened Arithmetic
  import opened Interpolation

  /** `FuncInterType`: linear blending is the only kind the source defines. */
  datatype FuncInterType = LinearBlend

  /** What `_get_indices` returns: one function index (Python's `int`, where -1 selects the last
      function), or the two bracketing grid positions. */
  datatype Indices = Single(index: int) | Bracket(left: nat, right: nat)

  /** `compute_weights` as written: the left weight grows from 0 at `xLeft` to 1 at `xRight`,
      so the left function gets all the weight at the right end of the bracket. */
  function ComputeWeightsAsWritten(x: real, xLeft: real, xRight: real): (w: (real, real))
    requires xLeft != xRight
    ensures w.0 + w.1 == 1.0
    ensures x == xLeft ==> w == (0.0, 1.0)
    ensures x == xRight ==> w == (1.0, 0.0)
  {
    var wLeft := (x - xLeft) / (xRight - xLeft);
    UnitQuotient(x - xLeft, xRight - xLeft);
    (wLeft, 1.0 - wLeft)
  }

  /** A quotient of a number by itself is 1. */
  lemma UnitQuotient(a: real, d: real)
    requires d != 0.0
    ensures a == d ==> a / d == 1.0
  {
    DivMul(a, d);
    assert (a / d - 1.0) * d == a - d;
  }

  /** `compute_weights` with the two weights swapped back: the right weight grows from 0 at
      `xLeft` to 1 at `xRight` and the left weight is its complement. The weights sum to 1 and
      reproduce `x` from the end points of the bracket. */
  function ComputeWeights(x: real, xLeft: real, xRight: real): (w: (real, real))
    requires xLeft < xRight
    ensures w.0 + w.1 == 1.0
    ensures w.0 * xLeft + w.1 * xRight == x
    ensures x == xLeft ==> w == (1.0, 0.0)
    ensures x == xRight ==> w == (0.0, 1.0)
    ensures xLeft <= x <= xRight ==> 0.0 <= w.0 <= 1.0 && 0.0 <= w.1 <= 1.0
  {
    var d := xRight - xLeft;
    var wRight := (x - xLeft) / d;
    DivMul(x - xLeft, d);
    UnitQuotient(x - xLeft, d);
    RightWeightWithin(x, xLeft, xRight);
    (1.0 - wRight, wRight)
  }

  /** Inside the bracket the right weight is a fraction. */
  lemma RightWeightWithin(x: real, xLeft: real, xRight: real)
    requires xLeft < xRight
    ensures xLeft <= x <= xRight ==> 0.0 <= (x - xLeft) / (xRight - xLeft) <= 1.0
  {
    if xLeft <= x <= xRight {
      DivAtLeast(x - xLeft, xRight - xLeft, 0.0);
      DivAtMost(x - xLeft, xRight - xLeft, 1.0);
    }
  }

  /** The blend `z => wLeft * f(z) + wRight * g(z)` built by `get_func`. */
  function Blend(f: real -> real, g: real -> real, w: (real, real)): real -> real {
    z => w.0 * f(z) + w.1 * g(z)
  }

  /** The values of all functions at `z`. */
  function ValuesAt(funcs: seq<real -> real>, z: real): (v: seq<real>)
    ensures |v| == |funcs|
    ensures forall i :: 0 <= i < |funcs| ==> v[i] == funcs[i](z)
  {
    seq(|funcs|, i requires 0 <= i < |funcs| => funcs[i](z))
  }

  datatype FunctionalInterpolator = FunctionalInterpolator(grid: seq<real>, funcs: seq<real -> real>,
                                                           fInterType: FuncInterType)
  {
    /** `_get_indices`: from the `bisect_left` position `i`, -1 beyond the grid, 0 before it,
        `i` on an exact match, and the bracket `(i - 1, i)` otherwise. */
    function GetIndices(x: real): (r: Indices)
      ensures r == Single(-1) <==> forall j :: 0 <= j < |grid| ==> grid[j] < x
      ensures |grid| > 0 && x < grid[0] ==> r == Single(0)
      ensures r.Single? && r.index != -1 ==> 0 <= r.index < |grid| && (x == grid[r.index] || (r.index == 0 && x < grid[0]))
      ensures r.Bracket? ==> 0 < r.right < |grid| && r.left == r.right - 1 && grid[r.left] < x < grid[r.right]
    {
      var i := BisectLeft(grid, x, RealLess);
      if i == |grid| then Single(-1)
      else if x < grid[0] then Single(0)
      else if x == grid[i] then Single(i)
      else Bracket(i - 1, i)
    }

    /** `get_func`: a single index selects its function unchanged (Python's -1 the last one); a
        bracket yields the blend of its two functions. A position past the function list is
        Python's IndexError. For a bracket the source builds the blending lambda without error
        and raises only when it is applied; the model reports the error at the lookup, which is
        where `__call__`, applying it at once, ends in the same IndexError. */
    function GetFunc(x: real): (r: Result<real -> real>)
      ensures |funcs| == |grid| >= 1 ==> r.Ok?
      ensures r.Err? ==> r.error == IndexOutOfRange
      ensures GetIndices(x) == Single(-1) && |funcs| > 0 ==> r == Ok(funcs[|funcs| - 1])
      ensures GetIndices(x).Single? && 0 <= GetIndices(x).index < |funcs| ==> r == Ok(funcs[GetIndices(x).index])
    {
      match GetIndices(x)
      case Single(i) =>
        if i == -1 then (if |funcs| > 0 then Ok(funcs[|funcs| - 1]) else Err(IndexOutOfRange))
        else if i < |funcs| then Ok(funcs[i])
        else Err(IndexOutOfRange)
      case Bracket(left, right) =>
        if right < |funcs| then Ok(Blend(funcs[left], funcs[right], ComputeWeights(x, grid[left], grid[right])))
        else Err(IndexOutOfRange)
    }

    /** `get_func` as written, blending with the weights of `compute_weights` as written. */
    function GetFuncAsWritten(x: real): (r: Result<real -> real>)
      ensures !GetIndices(x).Bracket? ==> r == GetFunc(x)
    {
      match GetIndices(x)
      case Single(_) => GetFunc(x)
      case Bracket(left, right) =>
        if right < |funcs| then Ok(Blend(funcs[left], funcs[right], ComputeWeightsAsWritten(x, grid[left], grid[right])))
        else Err(IndexOutOfRange)
    }

    /** `__call__(x, z)`: the function at `x`, applied to `z`. */
    function Call(x: real, z: real): (r: Result<real>)
      ensures r.Ok? <==> GetFunc(x).Ok?
      ensures r.Ok? ==> r.value == GetFunc(x).value(z)
    {
      var f :- GetFunc(x);
      Ok(f(z))
    }

    /** `__call__` on top of `get_func` as written. */
    function CallAsWritten(x: real, z: real): (r: Result<real>)
      ensures r.Ok? <==> GetFuncAsWritten(x).Ok?
      ensures r.Ok? ==> r.value == GetFuncAsWritten(x).value(z)
    {
      var f :- GetFuncAsWritten(x);
      Ok(f(z))
    }
  }

  /** On a strictly increasing grid an exact match selects that grid point's function. */
  lemma IndicesAtGridPoint(fi: FunctionalInterpolator, j: int)
    requires 0 <= j < |fi.grid| && StrictlySortedBy(fi.grid, RealLess)
    ensures fi.GetIndices(fi.grid[j]) == Single(j)
  {
    var i := BisectLeft(fi.grid, fi.grid[j], RealLess);
    if i < j {
      assert false;
    } else if i > j {
      assert false;
    }
  }

  /** The blend with the intended weights is the straight line between the two values. */
  lemma BlendIsLerp(x: real, xLeft: real, xRight: real, a: real, b: real)
    requires xLeft < xRight
    ensures var w := ComputeWeights(x, xLeft, xRight);
            w.0 * a + w.1 * b == Lerp(xLeft, xRight, a, b, x)
  {
    var w := ComputeWeights(x, xLeft, xRight);
    assert w.0 == 1.0 - w.1;
    assert w.0 * a + w.1 * b == a + (b - a) * w.1;
  }

  /** The bracket found by `bisect_left` is also the one `bisect_right` finds: `x` lies strictly
      inside it. */
  lemma BracketBisectRight(grid: seq<real>, x: real, i: int)
    requires 0 < i < |grid| && grid[i] > x
    requires forall j :: 0 <= j < i ==> grid[j] < x
    ensures BisectRight(grid, x, RealLess) == i
  {
    var b := BisectRight(grid, x, RealLess);
    if b < i {
      assert false;
    } else if b > i {
      assert false;
    }
  }

  /** With the intended weights, evaluating the functional interpolator at `(x, z)` is linear
      interpolation (numpy's `interp`) of the function values at `z` over the grid, at every
      `x`: inside the grid, on it and beyond either end. */
  lemma {:induction false} CallIsInterp(fi: FunctionalInterpolator, x: real, z: real)
    requires |fi.funcs| == |fi.grid| >= 1 && StrictlySortedBy(fi.grid, RealLess)
    ensures fi.Call(x, z) == Ok(Interp(fi.grid, ValuesAt(fi.funcs, z), x))
  {
    var grid, v := fi.grid, ValuesAt(fi.funcs, z);
    match fi.GetIndices(x)
    case Single(i) =>
      if i == -1 {
        assert forall j :: 0 <= j < |grid| ==> grid[j] <= x;
        assert fi.Call(x, z) == Ok(v[|v| - 1]);
      } else if x == grid[i] {
        InterpHitsData(grid, v, i);
      }
    case Bracket(left, right) =>
      forall j | 0 <= j < right
        ensures grid[j] < x
      {
        if j < left {
          assert RealLess(grid[j], grid[left]);
        }
      }
      BracketBisectRight(grid, x, right);
      CallInBracket(fi, x, z, left, right);
  }

  /** Inside a bracket both the blend and numpy's `interp` follow the straight line between
      the two bracketing values. */
  lemma CallInBracket(fi: FunctionalInterpolator, x: real, z: real, left: nat, right: nat)
    requires |fi.funcs| == |fi.grid| && fi.GetIndices(x) == Bracket(left, right)
    requires BisectRight(fi.grid, x, RealLess) == right
    ensures fi.Call(x, z) == Ok(Interp(fi.grid, ValuesAt(fi.funcs, z), x))
  {
    var grid, v := fi.grid, ValuesAt(fi.funcs, z);
    BlendIsLerp(x, grid[left], grid[right], v[left], v[right]);
    var w := ComputeWeights(x, grid[left], grid[right]);
    var f := Blend(fi.funcs[left], fi.funcs[right], w);
    assert fi.GetFunc(x) == Ok(f);
    assert f(z) == w.0 * v[left] + w.1 * v[right];
    assert Interp(grid, v, x) == f(z);
  }

  /** The weights of `compute_weights` as written put the interpolated value on the wrong side:
      on the grid [0, 1] with the functions 0 and 1, the interpolator as written gives 0.75 at
      x = 0.25, where linear interpolation gives 0.25. */
  lemma AsWrittenMisweights()
    ensures var fi := FunctionalInterpolator([0.0, 1.0], [_ => 0.0, _ => 1.0], LinearBlend);
            && fi.CallAsWritten(0.25, 0.0) == Ok(0.75)
            && fi.Call(0.25, 0.0) == Ok(0.25)
            && Interp([0.0, 1.0], [0.0, 1.0], 0.25) == 0.25
  {
    var fi := FunctionalInterpolator([0.0, 1.0], [_ => 0.0, _ => 1.0], LinearBlend);
    assert BisectLeft(fi.grid, 0.25, RealLess) == 1 by {
      assert RealLess(fi.grid[0], 0.25);
      assert BisectLeft(fi.grid[1..], 0.25, RealLess) == 0;
    }
    assert fi.GetIndices(0.25) == Bracket(0, 1);
    assert BisectRight([0.0, 1.0], 0.25, RealLess) == 1 by {
      assert !RealLess(0.25, 0.0);
      assert [0.0, 1.0][1..] == [1.0];
    }
  }
}
