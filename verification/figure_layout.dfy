/**
  The subplot grid chosen by `create_fig` in minian/utilities.py. Python's
  `None` and `0` are both falsy there and take the same branches, so a
  dimension the caller did not give is written `0`.
 */
module FigureLayout {

  /** `varlist` as passed: one array, or a list of them. */
  datatype VarList<T> = Single(item: T) | List(items: seq<T>)

  /** Rows and columns of the subplot grid. */
  datatype Grid = Grid(nrows: int, ncols: int)

  /** `np.ceil(np.float(n) / d).astype(int)`; `d` may be negative, since Python treats it as given. */
  function CeilDiv(n: nat, d: int): int
    requires d != 0
  {
    var q := (n as real) / (d as real);
    -((-q).Floor)
  }

  /** Multiplying by a positive factor keeps a non-strict or strict order. */
  lemma MulPositive(x: real, y: real, k: real)
    requires k > 0.0
    ensures x <= y ==> x * k <= y * k
    ensures x < y ==> x * k < y * k
  {
    assert y * k - x * k == (y - x) * k;
  }

  lemma ProductAsReal(c: int, d: int)
    ensures (c * d) as real == (c as real) * (d as real)
  {
  }

  /** Comparing a whole multiple `c·d` with `n` is comparing `c` with `n / d`. */
  lemma ScaledBounds(c: int, d: int, n: nat, q: real)
    requires d > 0 && q * (d as real) == n as real
    ensures q <= c as real ==> c * d >= n
    ensures c as real < q ==> c * d < n
  {
    MulPositive(q, c as real, d as real);
    MulPositive(c as real, q, d as real);
    ProductAsReal(c, d);
  }

  /**
    For a positive divisor, the ceiling is the least `c` with `c·d ≥ n`:
    it reaches `n`, and one less would not.
   */
  lemma CeilDivLeast(n: nat, d: int)
    requires d > 0
    ensures CeilDiv(n, d) * d >= n
    ensures (CeilDiv(n, d) - 1) * d < n
    ensures CeilDiv(n, d) >= 0
  {
    var nr, dr := n as real, d as real;
    var q := nr / dr;
    var c := CeilDiv(n, d);
    assert q <= c as real < q + 1.0;
    assert q * dr == nr;
    ScaledBounds(c, d, n, q);
    ScaledBounds(c - 1, d, n, q);
    assert q >= 0.0 by { MulPositive(q, 0.0, dr); }
  }

  /**
    The rows/columns decision of `create_fig` for `n` panels: with neither
    dimension given the panels go in one row, a dimension the caller gives
    is kept, and when at most one is given (and it is positive) the grid
    has a cell for every panel.
   */
  function Layout(n: nat, nrows: int, ncols: int): (g: Grid)
    ensures nrows == 0 && ncols == 0 ==> g == Grid(1, n)
    ensures nrows != 0 ==> g.nrows == nrows
    ensures ncols != 0 ==> g.ncols == ncols
    ensures nrows >= 0 && ncols >= 0 && (nrows == 0 || ncols == 0) ==>
      g.nrows >= 0 && g.ncols >= 0 && g.nrows * g.ncols >= n
  {
    if !(nrows != 0 || ncols != 0) then Grid(1, n)
    else if nrows != 0 && ncols == 0 then
      assert nrows > 0 ==> CeilDiv(n, nrows) >= 0 && nrows * CeilDiv(n, nrows) >= n by {
        if nrows > 0 { CeilDivLeast(n, nrows); }
      }
      Grid(nrows, CeilDiv(n, nrows))
    else if ncols != 0 && nrows == 0 then
      assert ncols > 0 ==> CeilDiv(n, ncols) >= 0 && CeilDiv(n, ncols) * ncols >= n by {
        if ncols > 0 { CeilDivLeast(n, ncols); }
      }
      Grid(CeilDiv(n, ncols), ncols)
    else Grid(nrows, ncols)
  }

  lemma IntMulCancel(x: int, y: int, d: int)
    requires d > 0 && x * d < y * d
    ensures x < y
  {
  }

  /**
    When only one dimension is given, and it is positive, the computed one
    is the smallest that leaves a cell for every panel: any `c` that would
    also do is at least as large.
   */
  lemma LayoutMinimal(n: nat, nrows: int, ncols: int, c: int)
    requires (nrows > 0 && ncols == 0) || (ncols > 0 && nrows == 0)
    ensures nrows > 0 && nrows * c >= n ==> c >= Layout(n, nrows, ncols).ncols
    ensures ncols > 0 && c * ncols >= n ==> c >= Layout(n, nrows, ncols).nrows
  {
    var d := if nrows > 0 then nrows else ncols;
    var computed := CeilDiv(n, d);
    CeilDivLeast(n, d);
    if c * d >= n {
      IntMulCancel(computed - 1, c, d);
    }
  }

  /**
    `create_fig`'s handling of its arguments: a single array is wrapped into
    a one-element list, and the grid is laid out for the length of that list.
   */
  function CreateFig<T>(varlist: VarList<T>, nrows: int, ncols: int): (r: (seq<T>, Grid))
    ensures varlist.Single? ==> r.0 == [varlist.item]
    ensures varlist.List? ==> r.0 == varlist.items
    ensures nrows == 0 && ncols == 0 ==> r.1 == Grid(1, |r.0|)
    ensures nrows != 0 ==> r.1.nrows == nrows
    ensures ncols != 0 ==> r.1.ncols == ncols
    ensures r.1 == Layout(|r.0|, nrows, ncols)
    ensures nrows >= 0 && ncols >= 0 && (nrows == 0 || ncols == 0) ==> r.1.nrows * r.1.ncols >= |r.0|
  {
    var panels := match varlist
      case Single(x) => [x]
      case List(xs) => xs;
    (panels, Layout(|panels|, nrows, ncols))
  }
}
