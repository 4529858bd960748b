/**
  Linear min/max rescaling: `normalize` in minian/visualization.py and
  `scale_varr`, `mov_to_float32`, `varr_to_float32`, `mov_to_uint8`,
  `varr_to_uint8` in minian/utilities.py. Each is an affine map that sends
  the smallest sample to the lower end of a target range and the largest
  to the upper end.
 */
module Rescale {

  /** The smallest sample (`np.min`). */
  function Min(a: seq<real>): (m: real)
    requires |a| > 0
    ensures exists i :: 0 <= i < |a| && a[i] == m
    ensures forall i :: 0 <= i < |a| ==> m <= a[i]
  {
    if |a| == 1 then a[0]
    else
      var rest := Min(a[1..]);
      assert forall i :: 1 <= i < |a| ==> a[i] == a[1..][i - 1];
      if a[0] <= rest then a[0] else rest
  }

  /** The largest sample (`np.max`). */
  function Max(a: seq<real>): (m: real)
    requires |a| > 0
    ensures exists i :: 0 <= i < |a| && a[i] == m
    ensures forall i :: 0 <= i < |a| ==> a[i] <= m
  {
    if |a| == 1 then a[0]
    else
      var rest := Max(a[1..]);
      assert forall i :: 1 <= i < |a| ==> a[i] == a[1..][i - 1];
      if a[0] >= rest then a[0] else rest
  }

  /** Not every sample is equal: the range the rescalings divide by is non-zero. */
  predicate Nondegenerate(a: seq<real>) {
    |a| > 0 && Min(a) < Max(a)
  }

  /** How far along from `lo` to `hi` the value `x` lies: `(x - lo) / (hi - lo)`. */
  function Fraction(x: real, lo: real, hi: real): real
    requires lo < hi
  {
    (x - lo) / (hi - lo)
  }

  /** Multiplying by a positive factor keeps the order of two reals, both ways. */
  lemma ScaleOrder(x: real, y: real, k: real)
    requires k > 0.0
    ensures x <= y <==> x * k <= y * k
  {
    if x <= y {
      assert y * k - x * k == (y - x) * k;
    } else {
      assert x * k - y * k == (x - y) * k;
    }
  }

  /** The fraction is 0 at `lo`, 1 at `hi`, in between for values in between, and order-preserving. */
  lemma FractionFacts(x: real, y: real, lo: real, hi: real)
    requires lo < hi
    ensures x == lo ==> Fraction(x, lo, hi) == 0.0
    ensures x == hi ==> Fraction(x, lo, hi) == 1.0
    ensures lo <= x <= hi ==> 0.0 <= Fraction(x, lo, hi) <= 1.0
    ensures x <= y <==> Fraction(x, lo, hi) <= Fraction(y, lo, hi)
  {
    var d := hi - lo;
    var p, q := Fraction(x, lo, hi), Fraction(y, lo, hi);
    assert p * d == x - lo;
    assert q * d == y - lo;
    ScaleOrder(p, q, d);
    ScaleOrder(0.0, p, d);
    ScaleOrder(p, 1.0, d);
  }

  /** `f` of the way from `lo` to `hi`. */
  function Lerp(f: real, lo: real, hi: real): real {
    f * (hi - lo) + lo
  }

  lemma LerpFacts(f: real, g: real, lo: real, hi: real)
    ensures f == 0.0 ==> Lerp(f, lo, hi) == lo
    ensures f == 1.0 ==> Lerp(f, lo, hi) == hi
    ensures lo <= hi && 0.0 <= f <= 1.0 ==> lo <= Lerp(f, lo, hi) <= hi
    ensures lo <= hi && f <= g ==> Lerp(f, lo, hi) <= Lerp(g, lo, hi)
  {
    var w := hi - lo;
    if w > 0.0 {
      ScaleOrder(0.0, f, w);
      ScaleOrder(f, 1.0, w);
      ScaleOrder(f, g, w);
      assert 1.0 * w == w && 0.0 * w == 0.0;
      if 0.0 <= f <= 1.0 {
        assert f * w <= w;
        assert Lerp(f, lo, hi) == f * w + lo;
        assert hi == w + lo;
      }
    } else if w == 0.0 {
      assert f * w == 0.0 && g * w == 0.0;
    }
  }

  /**
    `np.interp(x, (x0, x1), (y0, y1))`: linear interpolation between two
    anchors, clamped to the end values outside `[x0, x1]`. With equal
    anchors every `x` at or past them gets `y1`.
   */
  function Interp(x: real, x0: real, x1: real, y0: real, y1: real): real
    requires x0 <= x1
  {
    if x < x0 then y0
    else if x >= x1 then y1
    else (y1 - y0) / (x1 - x0) * (x - x0) + y0
  }

  /** Inside its anchors, interpolation onto `[0, 1]` is the fraction of the way along. */
  lemma InterpUnit(x: real, lo: real, hi: real)
    requires lo <= x <= hi && lo < hi
    ensures Interp(x, lo, hi, 0.0, 1.0) == Fraction(x, lo, hi)
  {
    if x == hi {
      FractionFacts(x, x, lo, hi);
    } else {
      assert (1.0 - 0.0) / (hi - lo) * (x - lo) + 0.0 == (x - lo) / (hi - lo);
    }
  }

  /**
    `normalize(a)`: every sample interpolated between the sample minimum
    (to 0) and maximum (to 1). A constant signal, whose two anchors
    coincide, comes out as all ones.
   */
  function Normalize(a: seq<real>): (r: seq<real>)
    requires |a| > 0
    ensures |r| == |a|
    ensures forall i :: 0 <= i < |a| ==> 0.0 <= r[i] <= 1.0
    ensures Nondegenerate(a) ==> forall i :: 0 <= i < |a| && a[i] == Min(a) ==> r[i] == 0.0
    ensures forall i :: 0 <= i < |a| && a[i] == Max(a) ==> r[i] == 1.0
    ensures forall i, j :: 0 <= i < |a| && 0 <= j < |a| ==> (a[i] <= a[j] <==> r[i] <= r[j])
    ensures !Nondegenerate(a) ==> forall i :: 0 <= i < |a| ==> r[i] == 1.0
  {
    var mn, mx := Min(a), Max(a);
    var r := seq(|a|, i requires 0 <= i < |a| => Interp(a[i], mn, mx, 0.0, 1.0));
    assert mn < mx ==> forall i, j :: 0 <= i < |a| && 0 <= j < |a| ==>
      && r[i] == Fraction(a[i], mn, mx)
      && 0.0 <= r[i] <= 1.0
      && (a[i] == mn ==> r[i] == 0.0)
      && (a[i] == mx ==> r[i] == 1.0)
      && (a[i] <= a[j] <==> r[i] <= r[j])
    by {
      if mn < mx {
        forall i, j | 0 <= i < |a| && 0 <= j < |a|
          ensures r[i] == Fraction(a[i], mn, mx)
          ensures 0.0 <= r[i] <= 1.0
          ensures a[i] == mn ==> r[i] == 0.0
          ensures a[i] == mx ==> r[i] == 1.0
          ensures a[i] <= a[j] <==> r[i] <= r[j]
        {
          InterpUnit(a[i], mn, mx);
          InterpUnit(a[j], mn, mx);
          FractionFacts(a[i], a[j], mn, mx);
        }
      }
    }
    assert mn == mx ==> forall i :: 0 <= i < |a| ==> a[i] == mx && r[i] == 1.0;
    r
  }

  /** Normalizing a constant signal gives all ones, and normalizing that again changes nothing. */
  lemma NormalizeConstant(a: seq<real>, v: real)
    requires |a| > 0 && forall i :: 0 <= i < |a| ==> a[i] == v
    ensures Normalize(a) == seq(|a|, i => 1.0)
    ensures Normalize(Normalize(a)) == Normalize(a)
  {
    var r := Normalize(a);
    assert !Nondegenerate(a) by {
      var lo :| 0 <= lo < |a| && a[lo] == Min(a);
      var hi :| 0 <= hi < |a| && a[hi] == Max(a);
    }
    assert r == seq(|a|, i => 1.0);
    var n := Normalize(r);
    assert !Nondegenerate(r) by {
      var lo :| 0 <= lo < |r| && r[lo] == Min(r);
      var hi :| 0 <= hi < |r| && r[hi] == Max(r);
    }
  }

  /** The range `scale_varr` maps onto when the caller gives none. */
  const DefaultScale: (real, real) := (0.0, 1.0)

  /**
    One sample through `scale_varr`, in its order of operations: subtract
    the minimum, multiply by the reciprocal of the range, stretch to the
    width of the scale, shift to its lower end.
   */
  function ScaleSample(x: real, mn: real, mx: real, lo: real, hi: real): real
    requires mn < mx
  {
    (x - mn) * (1.0 / (mx - mn)) * (hi - lo) + lo
  }

  lemma ScaleSampleIsLerp(x: real, mn: real, mx: real, lo: real, hi: real)
    requires mn < mx
    ensures ScaleSample(x, mn, mx, lo, hi) == Lerp(Fraction(x, mn, mx), lo, hi)
  {
    assert (x - mn) * (1.0 / (mx - mn)) == (x - mn) / (mx - mn);
  }

  /**
    `scale_varr(a, scale)`: the minimum goes to `scale[0]`, the maximum to
    `scale[1]`; for an increasing scale every sample lands inside it and
    the order of samples is kept.
   */
  function ScaleVarr(a: seq<real>, scale: (real, real)): (r: seq<real>)
    requires Nondegenerate(a)
    ensures |r| == |a|
    ensures forall i :: 0 <= i < |a| && a[i] == Min(a) ==> r[i] == scale.0
    ensures forall i :: 0 <= i < |a| && a[i] == Max(a) ==> r[i] == scale.1
    ensures scale.0 <= scale.1 ==> forall i :: 0 <= i < |a| ==> scale.0 <= r[i] <= scale.1
    ensures scale.0 <= scale.1 ==>
      forall i, j :: 0 <= i < |a| && 0 <= j < |a| && a[i] <= a[j] ==> r[i] <= r[j]
  {
    var mn, mx := Min(a), Max(a);
    var lo, hi := scale.0, scale.1;
    var r := seq(|a|, i requires 0 <= i < |a| => ScaleSample(a[i], mn, mx, lo, hi));
    forall i, j | 0 <= i < |a| && 0 <= j < |a|
      ensures a[i] == mn ==> r[i] == lo
      ensures a[i] == mx ==> r[i] == hi
      ensures lo <= hi ==> lo <= r[i] <= hi
      ensures lo <= hi && a[i] <= a[j] ==> r[i] <= r[j]
    {
      ScaleSampleIsLerp(a[i], mn, mx, lo, hi);
      ScaleSampleIsLerp(a[j], mn, mx, lo, hi);
      FractionFacts(a[i], a[j], mn, mx);
      LerpFacts(Fraction(a[i], mn, mx), Fraction(a[j], mn, mx), lo, hi);
    }
    r
  }

  /** `(x, y)` lies on the straight line through `(x0, y0)` and `(x1, y1)`. */
  predicate OnLine(x: real, y: real, x0: real, y0: real, x1: real, y1: real) {
    (y - y0) * (x1 - x0) == (x - x0) * (y1 - y0)
  }

  /** A line through two points with distinct abscissas has one ordinate at each `x`. */
  lemma OnLineUnique(x: real, y: real, y': real, x0: real, y0: real, x1: real, y1: real)
    requires x0 < x1
    requires OnLine(x, y, x0, y0, x1, y1) && OnLine(x, y', x0, y0, x1, y1)
    ensures y == y'
  {
    assert (y - y') * (x1 - x0) == 0.0;
  }

  /** One sample of a `scale_varr` lies on the line through `(mn, lo)` and `(mx, hi)`. */
  lemma ScaleSampleOnLine(x: real, mn: real, mx: real, lo: real, hi: real)
    requires mn < mx
    ensures OnLine(x, ScaleSample(x, mn, mx, lo, hi), mn, lo, mx, hi)
  {
    var d := mx - mn;
    var k := 1.0 / d;
    assert k * d == 1.0;
    calc {
      (ScaleSample(x, mn, mx, lo, hi) - lo) * d;
      (x - mn) * k * (hi - lo) * d;
      (x - mn) * (hi - lo) * (k * d);
      (x - mn) * (hi - lo);
    }
  }

  /**
    `scale_varr` puts every sample on the straight line through
    `(min, scale[0])` and `(max, scale[1])`: the one affine map with those
    endpoints.
   */
  lemma ScaleVarrOnLine(a: seq<real>, scale: (real, real))
    requires Nondegenerate(a)
    ensures forall i :: 0 <= i < |a| ==>
      OnLine(a[i], ScaleVarr(a, scale)[i], Min(a), scale.0, Max(a), scale.1)
    ensures forall i, y :: 0 <= i < |a| && OnLine(a[i], y, Min(a), scale.0, Max(a), scale.1) ==>
      y == ScaleVarr(a, scale)[i]
  {
    var mn, mx, r := Min(a), Max(a), ScaleVarr(a, scale);
    forall i | 0 <= i < |a|
      ensures OnLine(a[i], r[i], mn, scale.0, mx, scale.1)
    {
      ScaleSampleOnLine(a[i], mn, mx, scale.0, scale.1);
    }
    forall i, y | 0 <= i < |a| && OnLine(a[i], y, mn, scale.0, mx, scale.1)
      ensures y == r[i]
    {
      OnLineUnique(a[i], y, r[i], mn, scale.0, mx, scale.1);
    }
  }

  /** `normalize` and `scale_varr` at its default scale agree. */
  lemma NormalizeIsScaleVarr(a: seq<real>)
    requires Nondegenerate(a)
    ensures Normalize(a) == ScaleVarr(a, DefaultScale)
  {
    var mn, mx := Min(a), Max(a);
    forall i | 0 <= i < |a|
      ensures Normalize(a)[i] == ScaleVarr(a, DefaultScale)[i]
    {
      InterpUnit(a[i], mn, mx);
      ScaleSampleIsLerp(a[i], mn, mx, 0.0, 1.0);
    }
  }

  /** A normalized signal runs from exactly 0 to exactly 1. */
  lemma NormalizeRange(a: seq<real>)
    requires Nondegenerate(a)
    ensures Min(Normalize(a)) == 0.0 && Max(Normalize(a)) == 1.0
  {
    var r := Normalize(a);
    var lo :| 0 <= lo < |a| && a[lo] == Min(a);
    var hi :| 0 <= hi < |a| && a[hi] == Max(a);
    assert Min(r) <= r[lo];
    assert r[hi] <= Max(r);
  }

  /** Normalizing an already normalized signal changes nothing. */
  lemma NormalizeIdempotent(a: seq<real>)
    requires Nondegenerate(a)
    ensures Nondegenerate(Normalize(a))
    ensures Normalize(Normalize(a)) == Normalize(a)
  {
    var r := Normalize(a);
    NormalizeRange(a);
    var n := Normalize(r);
    forall i | 0 <= i < |r|
      ensures n[i] == r[i]
    {
      InterpUnit(r[i], 0.0, 1.0);
    }
  }

  /** `mov_to_float32`: every sample as its fraction of the way from minimum to maximum. */
  function MovToFloat32(a: seq<real>): (r: seq<real>)
    requires Nondegenerate(a)
    ensures |r| == |a|
    ensures forall i :: 0 <= i < |a| ==> 0.0 <= r[i] <= 1.0
  {
    var mn, mx := Min(a), Max(a);
    var r := seq(|a|, i requires 0 <= i < |a| => Fraction(a[i], mn, mx));
    forall i | 0 <= i < |a| ensures 0.0 <= r[i] <= 1.0 {
      FractionFacts(a[i], a[i], mn, mx);
    }
    r
  }

  /**
    `varr_to_float32`: first subtract the (broadcast) minimum, then divide by
    the (broadcast) range; the result keeps the order of the samples, both ways.
   */
  function VarrToFloat32(a: seq<real>): (r: seq<real>)
    requires Nondegenerate(a)
    ensures |r| == |a|
    ensures forall i, j :: 0 <= i < |a| && 0 <= j < |a| ==> (a[i] <= a[j] <==> r[i] <= r[j])
  {
    var mx, mn := Max(a), Min(a);
    var shifted := seq(|a|, i requires 0 <= i < |a| => a[i] - mn);
    var r := seq(|a|, i requires 0 <= i < |a| => shifted[i] / (mx - mn));
    forall i, j | 0 <= i < |a| && 0 <= j < |a|
      ensures a[i] <= a[j] <==> r[i] <= r[j]
    {
      FractionFacts(a[i], a[j], mn, mx);
    }
    r
  }

  /** Both float conversions are `scale_varr` onto `[0, 1]`. */
  lemma Float32IsScaleVarr(a: seq<real>)
    requires Nondegenerate(a)
    ensures MovToFloat32(a) == ScaleVarr(a, DefaultScale)
    ensures VarrToFloat32(a) == ScaleVarr(a, DefaultScale)
  {
    var mn, mx := Min(a), Max(a);
    forall i | 0 <= i < |a|
      ensures MovToFloat32(a)[i] == ScaleVarr(a, DefaultScale)[i]
      ensures VarrToFloat32(a)[i] == ScaleVarr(a, DefaultScale)[i]
    {
      ScaleSampleIsLerp(a[i], mn, mx, 0.0, 1.0);
    }
  }

  /** The 8-bit code of a fraction in `[0, 1]`: the cast to uint8 truncates. */
  lemma QuantizeFacts(f: real, g: real)
    requires 0.0 <= f <= 1.0 && 0.0 <= g <= 1.0
    ensures 0 <= (f * 255.0).Floor <= 255
    ensures f == 0.0 ==> (f * 255.0).Floor == 0
    ensures f == 1.0 ==> (f * 255.0).Floor == 255
    ensures f <= g ==> (f * 255.0).Floor <= (g * 255.0).Floor
  {
  }

  /**
    `mov_to_uint8`: the fraction of the range scaled to 255 and truncated.
    The codes span exactly 0 to 255 and keep the order of the samples.
   */
  function MovToUint8(a: seq<real>): (r: seq<int>)
    requires Nondegenerate(a)
    ensures |r| == |a|
    ensures forall i :: 0 <= i < |a| ==> 0 <= r[i] <= 255
    ensures forall i :: 0 <= i < |a| && a[i] == Min(a) ==> r[i] == 0
    ensures forall i :: 0 <= i < |a| && a[i] == Max(a) ==> r[i] == 255
    ensures forall i, j :: 0 <= i < |a| && 0 <= j < |a| && a[i] <= a[j] ==> r[i] <= r[j]
  {
    var mn, mx := Min(a), Max(a);
    var r := seq(|a|, i requires 0 <= i < |a| => (Fraction(a[i], mn, mx) * 255.0).Floor);
    forall i, j | 0 <= i < |a| && 0 <= j < |a|
      ensures 0 <= r[i] <= 255
      ensures a[i] == mn ==> r[i] == 0
      ensures a[i] == mx ==> r[i] == 255
      ensures a[i] <= a[j] ==> r[i] <= r[j]
    {
      FractionFacts(a[i], a[j], mn, mx);
      FractionFacts(a[j], a[j], mn, mx);
      QuantizeFacts(Fraction(a[i], mn, mx), Fraction(a[j], mn, mx));
    }
    r
  }

  /**
    `varr_to_uint8`: every code is in `0..255`, the darkest samples get 0,
    the brightest 255, and brighter samples never get lower codes; each code
    is the float conversion onto `[0, 1]`, scaled to 255 and truncated.
   */
  function VarrToUint8(a: seq<real>): (r: seq<int>)
    requires Nondegenerate(a)
    ensures |r| == |a|
    ensures forall i :: 0 <= i < |a| ==> 0 <= r[i] <= 255
    ensures forall i :: 0 <= i < |a| && a[i] == Min(a) ==> r[i] == 0
    ensures forall i :: 0 <= i < |a| && a[i] == Max(a) ==> r[i] == 255
    ensures forall i, j :: 0 <= i < |a| && 0 <= j < |a| && a[i] <= a[j] ==> r[i] <= r[j]
    ensures forall i :: 0 <= i < |a| ==> r[i] == (MovToFloat32(a)[i] * 255.0).Floor
  {
    var varrMax, varrMin := Max(a), Min(a);
    var r := seq(|a|, i requires 0 <= i < |a| => (Fraction(a[i], varrMin, varrMax) * 255.0).Floor);
    assert r == MovToUint8(a);
    var x := MovToFloat32(a);
    assert forall i :: 0 <= i < |a| ==> r[i] == (x[i] * 255.0).Floor;
    r
  }

  /**
    The 8-bit conversions truncate `scale_varr` onto `(0, 255)`, and the
    two of them agree.
   */
  lemma Uint8IsTruncatedScaleVarr(a: seq<real>)
    requires Nondegenerate(a)
    ensures forall i :: 0 <= i < |a| ==> MovToUint8(a)[i] == ScaleVarr(a, (0.0, 255.0))[i].Floor
    ensures VarrToUint8(a) == MovToUint8(a)
  {
    var mn, mx := Min(a), Max(a);
    forall i | 0 <= i < |a|
      ensures MovToUint8(a)[i] == ScaleVarr(a, (0.0, 255.0))[i].Floor
    {
      ScaleSampleIsLerp(a[i], mn, mx, 0.0, 255.0);
    }
  }
}
