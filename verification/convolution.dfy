/**
  `convolve_G` in minian/visualization.py: the calcium trace `c` an AR
  model produces from a spike train `s`, obtained by solving `G·c = s` with
  the matrix `ConstructG(g, |s|)`. Here the solve is related to the
  forward recurrence
      c[t] = s[t] + g[0]·c[t-1] + … + g[m-1]·c[t-m],   m = min(t, |g|),
  which is what `G⁻¹·s` is in exact arithmetic.
 */
module Convolution {
  import opened Wrappers
  import opened Matrices
  import opened Toeplitz

  /**
    The outcome of `convolve_G`: the solved trace, or the copy of `s` it
    returns when inversion raises LinAlgError.
   */
  datatype Trace = Computed(c: seq<real>) | PassThrough(c: seq<real>)

  /**
    `g[0]·p[|p|-1] + g[1]·p[|p|-2] + …`, over as many lags as both `g` and
    the history `p` provide: the AR contribution of the past to the next
    sample.
   */
  function LagSum(g: seq<real>, p: seq<real>): real
    decreases |p|
  {
    if |g| == 0 || |p| == 0 then 0.0
    else g[0] * p[|p| - 1] + LagSum(g[1..], p[..|p| - 1])
  }

  /** The AR recurrence run forward over `s`, one sample at a time. */
  function ArTrace(s: seq<real>, g: seq<real>): (c: seq<real>)
    ensures |c| == |s|
    decreases |s|
  {
    if |s| == 0 then []
    else
      var p := ArTrace(s[..|s| - 1], g);
      p + [s[|s| - 1] + LagSum(g, p)]
  }

  /** `convolve_G(s, g)`: errors of `construct_G` propagate, LinAlgError falls back to `s`. */
  function ConvolveG(s: seq<real>, g: seq<real>): (r: Result<Trace, Error>)
    ensures r.Success? <==> |s| >= 1 && (|g| < |s| || |g| == 1)
    ensures r.Failure? ==> r.error == ConstructG(g, |s|).error
    ensures r.Success? ==> |r.value.c| == |s|
  {
    match ConstructG(g, |s|)
    case Failure(e) => Failure(e)
    case Success(G) =>
      match SolveLowerTriangular(G, s)
      case Some(c) => Success(Computed(c))
      case None => Success(PassThrough(s))
  }

  /** `a^n` for a natural exponent. */
  function Pow(a: real, n: nat): real {
    if n == 0 then 1.0 else a * Pow(a, n - 1)
  }

  /**
    A row whose entry `j` is the weight of lag `|u| - j` turns the product
    with a history `p` into minus the AR sum over `p`.
   */
  lemma {:induction false} LagRowDot(g: seq<real>, u: seq<real>, p: seq<real>)
    requires |u| == |p|
    requires forall j :: 0 <= j < |u| ==> u[j] == LagWeight(g, |u| - j)
    ensures Dot(u, p) == -LagSum(g, p)
    decreases |p|
  {
    if |p| > 0 {
      var n := |p| - 1;
      if |g| == 0 {
        LagRowDot(g, u[..n], p[..n]);
      } else {
        forall j | 0 <= j < n
          ensures u[..n][j] == LagWeight(g[1..], n - j)
        {
          assert u[j] == LagWeight(g, n - j + 1);
        }
        LagRowDot(g[1..], u[..n], p[..n]);
      }
    }
  }

  /** Causality of the recurrence: the first `t` samples only see `s[..t]`. */
  lemma {:induction false} ArTracePrefix(s: seq<real>, g: seq<real>, t: nat)
    requires t <= |s|
    ensures ArTrace(s, g)[..t] == ArTrace(s[..t], g)
    decreases |s|
  {
    if t == |s| {
      assert s[..t] == s;
    } else {
      var n := |s| - 1;
      ArTracePrefix(s[..n], g, t);
      assert s[..n][..t] == s[..t];
      assert ArTrace(s, g)[..t] == ArTrace(s[..n], g)[..t];
    }
  }

  /** The recurrence holds at every sample of the trace. */
  lemma ArTraceRecurrence(s: seq<real>, g: seq<real>, t: nat)
    requires t < |s|
    ensures ArTrace(s, g)[t] == s[t] + LagSum(g, ArTrace(s, g)[..t])
  {
    var c := ArTrace(s, g);
    ArTracePrefix(s, g, t + 1);
    ArTracePrefix(s, g, t);
    assert s[..t + 1][..t] == s[..t];
    assert c[t] == c[..t + 1][t];
  }

  /** Two spike trains that agree up to `t` give traces that agree up to `t`. */
  lemma ArTraceCausal(s1: seq<real>, s2: seq<real>, g: seq<real>, t: nat)
    requires t <= |s1| && t <= |s2| && s1[..t] == s2[..t]
    ensures ArTrace(s1, g)[..t] == ArTrace(s2, g)[..t]
  {
    ArTracePrefix(s1, g, t);
    ArTracePrefix(s2, g, t);
  }

  lemma {:induction false} LagSumOfZeros(g: seq<real>, p: seq<real>)
    requires forall i :: 0 <= i < |p| ==> p[i] == 0.0
    ensures LagSum(g, p) == 0.0
    decreases |p|
  {
    if |g| != 0 && |p| != 0 {
      LagSumOfZeros(g[1..], p[..|p| - 1]);
    }
  }

  lemma {:induction false} LagSumZeroCoefficients(g: seq<real>, p: seq<real>)
    requires forall k :: 0 <= k < |g| ==> g[k] == 0.0
    ensures LagSum(g, p) == 0.0
    decreases |p|
  {
    if |g| != 0 && |p| != 0 {
      LagSumZeroCoefficients(g[1..], p[..|p| - 1]);
    }
  }

  /** Silence in, silence out: an all-zero spike train gives an all-zero trace. */
  lemma {:induction false} ArTraceOfZeros(s: seq<real>, g: seq<real>)
    requires forall i :: 0 <= i < |s| ==> s[i] == 0.0
    ensures forall i :: 0 <= i < |s| ==> ArTrace(s, g)[i] == 0.0
    decreases |s|
  {
    if |s| > 0 {
      var n := |s| - 1;
      ArTraceOfZeros(s[..n], g);
      LagSumOfZeros(g, ArTrace(s[..n], g));
    }
  }

  /** Before the first spike the trace is zero. */
  lemma ArTraceZeroPrefix(s: seq<real>, g: seq<real>, t: nat)
    requires t <= |s|
    requires forall i :: 0 <= i < t ==> s[i] == 0.0
    ensures forall i :: 0 <= i < t ==> ArTrace(s, g)[i] == 0.0
  {
    ArTracePrefix(s, g, t);
    ArTraceOfZeros(s[..t], g);
    assert forall i :: 0 <= i < t ==> ArTrace(s, g)[i] == ArTrace(s, g)[..t][i];
  }

  /** The trace starts where the spike train starts. */
  lemma ArTraceFirst(s: seq<real>, g: seq<real>)
    requires |s| >= 1
    ensures ArTrace(s, g)[0] == s[0]
  {
    ArTraceRecurrence(s, g, 0);
  }

  /** With all coefficients zero the model is the identity. */
  lemma {:induction false} ArTraceZeroCoefficients(s: seq<real>, g: seq<real>)
    requires forall k :: 0 <= k < |g| ==> g[k] == 0.0
    ensures ArTrace(s, g) == s
    decreases |s|
  {
    if |s| > 0 {
      var n := |s| - 1;
      ArTraceZeroCoefficients(s[..n], g);
      LagSumZeroCoefficients(g, s[..n]);
      assert s == s[..n] + [s[n]];
    }
  }

  /** A first-order model driven by one unit impulse decays geometrically. */
  lemma {:induction false} ArTraceGeometric(s: seq<real>, gamma: real)
    requires |s| >= 1 && s[0] == 1.0
    requires forall i :: 1 <= i < |s| ==> s[i] == 0.0
    ensures forall t :: 0 <= t < |s| ==> ArTrace(s, [gamma])[t] == Pow(gamma, t)
    decreases |s|
  {
    var n := |s| - 1;
    if n == 0 {
      assert ArTrace(s, [gamma]) == [] + [s[0] + LagSum([gamma], [])];
    } else {
      var p := ArTrace(s[..n], [gamma]);
      ArTraceGeometric(s[..n], gamma);
      assert [gamma][1..] == [];
      assert LagSum([gamma], p) == gamma * p[n - 1];
    }
  }

  /**
    The rows forward substitution reads: 1 on the diagonal and, left of it,
    the weight of the lag `i - j`.
   */
  predicate ArRows(G: Matrix, g: seq<real>, n: nat)
    requires IsSquare(G, n)
  {
    && UnitDiagonal(G, n)
    && forall i, j :: 0 <= j < i < n ==> G[i][j] == LagWeight(g, i - j)
  }

  /** `ConstructG(g, T)` has exactly those rows. */
  lemma ConstructGArRows(g: seq<real>, T: nat)
    requires ConstructG(g, T).Success?
    ensures IsSquare(ConstructG(g, T).value, T)
    ensures ArRows(ConstructG(g, T).value, g, T)
  {
    var G := ConstructG(g, T).value;
    forall i, j | 0 <= j < i < T
      ensures G[i][j] == LagWeight(g, i - j)
    {
      if i - j <= |g| {
        assert G[i][j] == -g[i - j - 1];
      } else {
        assert G[i][j] == 0.0;
      }
    }
  }

  /** One step of forward substitution on a unit diagonal. */
  lemma SolvePrefixStep(G: Matrix, s: seq<real>, k: nat, p: seq<real>)
    requires IsSquare(G, |s|) && 0 < k <= |s|
    requires SolvePrefix(G, s, k - 1) == Some(p) && G[k - 1][k - 1] == 1.0
    ensures SolvePrefix(G, s, k) == Some(p + [s[k - 1] - Dot(G[k - 1][..k - 1], p)])
  {
  }

  /** The trace of `s[..k]` extends the trace of `s[..k-1]` by one AR sample. */
  lemma ArTraceSnoc(s: seq<real>, g: seq<real>, k: nat)
    requires 0 < k <= |s|
    ensures ArTrace(s[..k], g) == ArTrace(s[..k - 1], g) + [s[k - 1] + LagSum(g, ArTrace(s[..k - 1], g))]
  {
    assert s[..k][..k - 1] == s[..k - 1];
  }

  /** On AR rows, one step of forward substitution adds the next AR sample. */
  lemma ArRowsSolveStep(G: Matrix, s: seq<real>, g: seq<real>, k: nat, p: seq<real>)
    requires IsSquare(G, |s|) && ArRows(G, g, |s|) && 0 < k <= |s|
    requires SolvePrefix(G, s, k - 1) == Some(p)
    ensures SolvePrefix(G, s, k) == Some(p + [s[k - 1] + LagSum(g, p)])
  {
    var i := k - 1;
    forall j | 0 <= j < i
      ensures G[i][..i][j] == LagWeight(g, i - j)
    {
    }
    LagRowDot(g, G[i][..i], p);
    SolvePrefixStep(G, s, k, p);
  }

  /** Forward substitution on AR rows reproduces the recurrence, prefix by prefix. */
  lemma {:induction false} ArRowsSolve(G: Matrix, s: seq<real>, g: seq<real>, k: nat)
    requires IsSquare(G, |s|) && ArRows(G, g, |s|) && k <= |s|
    ensures SolvePrefix(G, s, k) == Some(ArTrace(s[..k], g))
  {
    if k > 0 {
      ArRowsSolve(G, s, g, k - 1);
      ArRowsSolveStep(G, s, g, k, ArTrace(s[..k - 1], g));
      ArTraceSnoc(s, g, k);
    }
  }

  /** Forward substitution on `ConstructG(g, |s|)` reproduces the recurrence, prefix by prefix. */
  lemma SolvePrefixIsArTrace(s: seq<real>, g: seq<real>, k: nat)
    requires ConstructG(g, |s|).Success? && k <= |s|
    ensures SolvePrefix(ConstructG(g, |s|).value, s, k) == Some(ArTrace(s[..k], g))
  {
    ConstructGArRows(g, |s|);
    ArRowsSolve(ConstructG(g, |s|).value, s, g, k);
  }

  /**
    `convolve_G` never takes its fallback: whenever it returns, it returns
    the computed AR trace.
   */
  lemma ConvolveGIsArTrace(s: seq<real>, g: seq<real>)
    requires ConvolveG(s, g).Success?
    ensures ConvolveG(s, g) == Success(Computed(ArTrace(s, g)))
  {
    SolvePrefixIsArTrace(s, g, |s|);
    assert s[..|s|] == s;
  }

  /**
    The computed trace is `G⁻¹·s`: among all traces of the right length it
    is the one and only `c` with `G·c = s`.
   */
  lemma ConvolveGSolves(s: seq<real>, g: seq<real>, c: seq<real>)
    requires ConvolveG(s, g).Success? && |c| == |s|
    ensures ConvolveG(s, g).value.Computed?
    ensures MatVec(ConstructG(g, |s|).value, c) == s <==> c == ConvolveG(s, g).value.c
  {
    SolveIsInverse(ConstructG(g, |s|).value, s, c);
  }

  /**
    With all-zero coefficients `G` is the identity, and the computed trace
    is the spike train itself, the same value the fallback would give.
   */
  lemma ConvolveGZeroCoefficients(s: seq<real>, g: seq<real>)
    requires |s| >= 1 && (|g| < |s| || |g| == 1)
    requires forall k :: 0 <= k < |g| ==> g[k] == 0.0
    ensures ConvolveG(s, g) == Success(Computed(s))
  {
    ConvolveGIsArTrace(s, g);
    ArTraceZeroCoefficients(s, g);
  }

  /** The five-sample decay example: `g = [0.9]` driven by one spike. */
  lemma ConvolveGDecayExample()
    ensures ConvolveG([1.0, 0.0, 0.0, 0.0, 0.0], [0.9])
      == Success(Computed([1.0, 0.9, 0.81, 0.729, 0.6561]))
  {
    var s := [1.0, 0.0, 0.0, 0.0, 0.0];
    ConvolveGIsArTrace(s, [0.9]);
    ArTraceGeometric(s, 0.9);
    var c := ArTrace(s, [0.9]);
    assert c[4] == Pow(0.9, 4) == 0.6561;
    assert c[3] == Pow(0.9, 3) == 0.729;
    assert c[2] == Pow(0.9, 2) == 0.81;
    assert c[1] == Pow(0.9, 1) == 0.9;
    assert c[0] == Pow(0.9, 0) == 1.0;
    assert c == [1.0, 0.9, 0.81, 0.729, 0.6561];
  }
}
