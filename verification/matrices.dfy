/**
  Dense real matrices as sequences of rows, the matrix-vector product, and
  forward substitution: the exact-arithmetic counterpart of `inv(G).dot(s)`
  for the lower-triangular matrices the convolution kernel builds.
 */
module Matrices {
  import opened Wrappers

  type Matrix = seq<seq<real>>

  /** `G` has `n` rows of `n` entries each. */
  predicate IsSquare(G: Matrix, n: nat) {
    |G| == n && forall i :: 0 <= i < n ==> |G[i]| == n
  }

  /** Every entry strictly above the diagonal is zero. */
  predicate LowerTriangular(G: Matrix, n: nat)
    requires IsSquare(G, n)
  {
    forall i, j :: 0 <= i < j < n ==> G[i][j] == 0.0
  }

  /** Every diagonal entry is one. */
  predicate UnitDiagonal(G: Matrix, n: nat)
    requires IsSquare(G, n)
  {
    forall i :: 0 <= i < n ==> G[i][i] == 1.0
  }

  /** Inner product, accumulated from the last entry backwards. */
  function Dot(u: seq<real>, v: seq<real>): real
    requires |u| == |v|
    decreases |u|
  {
    if |u| == 0 then 0.0
    else Dot(u[..|u| - 1], v[..|v| - 1]) + u[|u| - 1] * v[|v| - 1]
  }

  /** The product `G·c`. */
  function MatVec(G: Matrix, c: seq<real>): (r: seq<real>)
    requires IsSquare(G, |c|)
    ensures |r| == |c|
  {
    seq(|c|, i requires 0 <= i < |c| => Dot(G[i], c))
  }

  /**
    Forward substitution on the first `k` rows of `G·c = s`: row `i` fixes
    `c[i]` from `c[..i]`. It gives up (None) at the first zero pivot.
   */
  function SolvePrefix(G: Matrix, s: seq<real>, k: nat): (r: Option<seq<real>>)
    requires IsSquare(G, |s|) && k <= |s|
    ensures r.Some? ==> |r.value| == k
    ensures r.None? <==> exists i :: 0 <= i < k && G[i][i] == 0.0
    decreases k
  {
    if k == 0 then Some([])
    else
      match SolvePrefix(G, s, k - 1)
      case None => None
      case Some(p) =>
        var pivot := G[k - 1][k - 1];
        if pivot == 0.0 then None
        else Some(p + [(s[k - 1] - Dot(G[k - 1][..k - 1], p)) / pivot])
  }

  /**
    Solves `G·c = s` for a lower-triangular `G`. None stands for the
    LinAlgError `inv` raises on a singular matrix; a lower-triangular
    matrix is singular exactly when a diagonal entry is zero.
   */
  function SolveLowerTriangular(G: Matrix, s: seq<real>): (r: Option<seq<real>>)
    requires IsSquare(G, |s|) && LowerTriangular(G, |s|)
    ensures r.Some? ==> |r.value| == |s|
    ensures r.None? <==> exists i :: 0 <= i < |s| && G[i][i] == 0.0
  {
    SolvePrefix(G, s, |s|)
  }

  lemma DotPrefixStep(u: seq<real>, v: seq<real>, m: nat)
    requires |u| == |v| && m < |u|
    ensures Dot(u[..m + 1], v[..m + 1]) == Dot(u[..m], v[..m]) + u[m] * v[m]
  {
    assert u[..m + 1][..m] == u[..m];
    assert v[..m + 1][..m] == v[..m];
  }

  /** Entries of `u` from `m` on are zero, so they add nothing to the product. */
  lemma {:induction false} DotZeroTail(u: seq<real>, v: seq<real>, m: nat)
    requires |u| == |v| && m <= |u|
    requires forall j :: m <= j < |u| ==> u[j] == 0.0
    ensures Dot(u, v) == Dot(u[..m], v[..m])
    decreases |u| - m
  {
    if |u| == m {
      assert u[..m] == u && v[..m] == v;
    } else {
      var n := |u| - 1;
      DotZeroTail(u[..n], v[..n], m);
      assert u[..n][..m] == u[..m] && v[..n][..m] == v[..m];
    }
  }

  /** Row `i` of a lower-triangular product only sees `c[..i+1]`. */
  lemma RowSplit(G: Matrix, c: seq<real>, i: nat)
    requires IsSquare(G, |c|) && LowerTriangular(G, |c|) && i < |c|
    ensures MatVec(G, c)[i] == Dot(G[i][..i], c[..i]) + G[i][i] * c[i]
  {
    DotZeroTail(G[i], c, i + 1);
    DotPrefixStep(G[i], c, i);
  }

  /** Row equation `i` of `G·c = s`, restricted to the entries left of the diagonal and on it. */
  predicate RowHolds(G: Matrix, s: seq<real>, c: seq<real>, i: nat)
    requires IsSquare(G, |s|) && i < |c| <= |s|
  {
    Dot(G[i][..i], c[..i]) + G[i][i] * c[i] == s[i]
  }

  /** Each row equation solved so far holds of the partial solution. */
  lemma {:induction false} SolvePrefixRows(G: Matrix, s: seq<real>, k: nat, c: seq<real>)
    requires IsSquare(G, |s|) && k <= |s| && SolvePrefix(G, s, k) == Some(c)
    ensures forall i :: 0 <= i < k ==> RowHolds(G, s, c, i)
  {
    if k > 0 {
      var p := SolvePrefix(G, s, k - 1).value;
      SolvePrefixRows(G, s, k - 1, p);
      var pivot := G[k - 1][k - 1];
      assert c == p + [(s[k - 1] - Dot(G[k - 1][..k - 1], p)) / pivot];
      forall i | 0 <= i < k
        ensures RowHolds(G, s, c, i)
      {
        if i < k - 1 {
          assert c[..i] == p[..i];
          assert c[i] == p[i];
          assert RowHolds(G, s, p, i);
        } else {
          assert c[..i] == p;
        }
      }
    }
  }

  /** A successful solve really solves the system: `G·c = s`. */
  lemma SolveLowerTriangularSolves(G: Matrix, s: seq<real>)
    requires IsSquare(G, |s|) && LowerTriangular(G, |s|)
    requires SolveLowerTriangular(G, s).Some?
    ensures MatVec(G, SolveLowerTriangular(G, s).value) == s
  {
    var c := SolveLowerTriangular(G, s).value;
    SolvePrefixRows(G, s, |s|, c);
    forall i | 0 <= i < |s|
      ensures MatVec(G, c)[i] == s[i]
    {
      RowSplit(G, c, i);
      assert RowHolds(G, s, c, i);
    }
  }

  /**
    With a non-zero diagonal, `G·c = G·d` forces `c = d`: the system has
    at most one solution.
   */
  lemma SolutionUnique(G: Matrix, c: seq<real>, d: seq<real>)
    requires |c| == |d| && IsSquare(G, |c|) && LowerTriangular(G, |c|)
    requires forall i :: 0 <= i < |c| ==> G[i][i] != 0.0
    requires MatVec(G, c) == MatVec(G, d)
    ensures c == d
  {
    var k := 0;
    while k < |c|
      invariant k <= |c|
      invariant c[..k] == d[..k]
    {
      RowSplit(G, c, k);
      RowSplit(G, d, k);
      assert G[k][k] * c[k] == G[k][k] * d[k];
      assert G[k][k] * (c[k] - d[k]) == 0.0;
      assert c[k] == d[k];
      assert c[..k + 1] == c[..k] + [c[k]];
      assert d[..k + 1] == d[..k] + [d[k]];
      k := k + 1;
    }
    assert c == c[..k] && d == d[..k];
  }

  /**
    For a unit lower-triangular `G` the solve never fails, and its result is
    exactly the vectors `c` with `G·c = s`: it is `G⁻¹·s`.
   */
  lemma SolveIsInverse(G: Matrix, s: seq<real>, c: seq<real>)
    requires IsSquare(G, |s|) && LowerTriangular(G, |s|) && UnitDiagonal(G, |s|)
    requires |c| == |s|
    ensures SolveLowerTriangular(G, s).Some?
    ensures MatVec(G, c) == s <==> c == SolveLowerTriangular(G, s).value
  {
    var r := SolveLowerTriangular(G, s);
    assert r.Some?;
    SolveLowerTriangularSolves(G, s);
    if MatVec(G, c) == s {
      SolutionUnique(G, c, r.value);
    }
  }
}
