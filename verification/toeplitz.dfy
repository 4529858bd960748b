/**
  The convolution matrix of an autoregressive (AR) calcium model:
  `construct_G` in minian/visualization.py. For coefficients
  `g = [g1, …, gk]` and trace length `T` it is the T×T Toeplitz matrix
  whose first column is `[1, -g1, …, -gk, 0, …]` and whose first row is
  `[1, 0, …]`, so that `G·c = s` says `s[t] = c[t] - Σ g_k·c[t-k]`.
 */
module Toeplitz {
  import opened Wrappers
  import opened Matrices

  /**
    Where the descending diagonal `i - j == m` starts: in the first column
    for `m >= 0`, in the first row otherwise.
   */
  function DiagonalStart(G: Matrix, n: nat, m: int): real
    requires IsSquare(G, n) && -(n as int) < m < n
  {
    if m >= 0 then G[m][0] else G[0][-m]
  }

  /** Every descending diagonal is constant: an entry depends only on `i - j`. */
  predicate IsToeplitz(G: Matrix, n: nat)
    requires IsSquare(G, n)
  {
    forall i, j :: 0 <= i < n && 0 <= j < n ==> G[i][j] == DiagonalStart(G, n, i - j)
  }

  /** In a Toeplitz matrix two entries on the same descending diagonal are equal. */
  lemma ToeplitzDiagonals(G: Matrix, n: nat)
    requires IsSquare(G, n) && IsToeplitz(G, n)
    ensures forall i, j, i', j' ::
      0 <= i < n && 0 <= j < n && 0 <= i' < n && 0 <= j' < n && i - j == i' - j' ==> G[i][j] == G[i'][j']
  {
  }

  /**
    The Toeplitz matrix with first column `col` and first row `row`, as
    `scipy.linalg.toeplitz` builds it: on and below the diagonal the entry
    comes from `col`, above it from `row` (so `row[0]` is never used).
   */
  function ToeplitzMatrix(col: seq<real>, row: seq<real>): (G: Matrix)
    requires |col| == |row|
    ensures IsSquare(G, |col|)
    ensures forall i :: 0 <= i < |col| ==> G[i][0] == col[i]
    ensures forall j :: 1 <= j < |col| ==> G[0][j] == row[j]
    ensures IsToeplitz(G, |col|)
  {
    var n := |col|;
    seq(n, i requires 0 <= i < n =>
      seq(n, j requires 0 <= j < n => if i >= j then col[i - j] else row[j - i]))
  }

  /**
    `cur_c`: zeros of length `T`, then 1 at index 0 and `-g` written into
    indices `1..|g|`. Indices at or beyond `T` do not exist; the only way
    the source gets past that without an error is one coefficient broadcast
    into an empty slice, which writes nothing.
   */
  function FirstColumn(g: seq<real>, T: nat): (col: seq<real>)
    ensures |col| == T
  {
    seq(T, i requires 0 <= i < T => if i == 0 then 1.0 else if i <= |g| then -g[i - 1] else 0.0)
  }

  /** `cur_r`: zeros of length `T` with 1 at index 0. */
  function FirstRow(T: nat): (row: seq<real>)
    ensures |row| == T
  {
    seq(T, j requires 0 <= j < T => if j == 0 then 1.0 else 0.0)
  }

  /**
    `construct_G(g, T)`. Fails with IndexError when `T == 0` (`cur_c[0] = 1`
    on an empty array) and with a broadcast error when the slice
    `cur_c[1:|g|+1]`, clipped to `T - 1` entries, cannot hold `-g`; numpy
    still accepts a single coefficient, which it broadcasts into the slice.
   */
  function ConstructG(g: seq<real>, T: nat): (r: Result<Matrix, Error>)
    ensures r.Success? <==> T >= 1 && (|g| < T || |g| == 1)
    ensures T == 0 ==> r == Failure(IndexError)
    ensures T >= 1 && |g| >= T && |g| != 1 ==> r == Failure(BroadcastError)
    ensures r.Success? ==> IsSquare(r.value, T)
    ensures r.Success? ==> UnitDiagonal(r.value, T) && LowerTriangular(r.value, T)
    ensures r.Success? ==> IsToeplitz(r.value, T)
    ensures r.Success? ==> forall i, j :: 0 <= j < i < T && i - j <= |g| ==> r.value[i][j] == -g[i - j - 1]
    ensures r.Success? ==> forall i, j :: 0 <= j < i < T && i - j > |g| ==> r.value[i][j] == 0.0
  {
    if T == 0 then Failure(IndexError)
    else if |g| > T - 1 && |g| != 1 then Failure(BroadcastError)
    else Success(ToeplitzMatrix(FirstColumn(g, T), FirstRow(T)))
  }

  /** Every entry below the diagonal is the AR weight of its lag `i - j`. */
  function LagWeight(g: seq<real>, m: int): real {
    if 1 <= m <= |g| then -g[m - 1] else 0.0
  }
}
