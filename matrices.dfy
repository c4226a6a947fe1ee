/**
 * The dense matrix value of Matrixf.kt: construction, elementwise arithmetic,
 * the three elementary row operations, products, adjoining and the shape
 * predicates. Every operation returns a new matrix, so a matrix is a value.
 * Entries are reals: 32-bit float rounding is abstracted away, and the exact
 * `== 0f` / `!= 1f` tests of the library become real equalities.
 */
module Matrices {
  import opened Wrappers

  /** Rows of entries; `g[i][j]` is the entry in row i, column j. */
  type Grid = seq<seq<real>>

  predicate Rectangular(g: Grid, width: nat) {
    forall i | 0 <= i < |g| :: |g[i]| == width
  }

  /** A matrix has a first row (the library reads `rows.first()`) and equal-length rows. */
  predicate IsMatrix(g: Grid) {
    |g| >= 1 && Rectangular(g, |g[0]|)
  }

  /** The number of columns, `n` in the library. */
  function Cols(g: Grid): nat
    requires |g| >= 1
  {
    |g[0]|
  }

  // ------------------------------------------------------------------
  // Construction
  // ------------------------------------------------------------------

  /** The rows of a matrix laid end to end. */
  function Flatten(g: Grid): seq<real> {
    if g == [] then [] else Flatten(g[..|g| - 1]) + g[|g| - 1]
  }

  /**
   * `from(n, m, values)`: m rows of n values each, row i being the slice
   * `values[i*n until i*n+n]`. A negative row count, a matrix without rows
   * and a too short value list fail as the library does.
   */
  function From(n: int, m: int, values: seq<real>): (r: Result<Grid>)
    ensures r.Err? <==> m <= 0 || (n > 0 && m * n > |values|)
    ensures r.Ok? ==> IsMatrix(r.value) && |r.value| == m && Cols(r.value) == (if n > 0 then n else 0)
    ensures r.Ok? && n > 0 ==> Flatten(r.value) == values[..m * n]
  {
    if m < 0 then Err(NegativeSize)
    else if m == 0 then Err(NoSuchElement)
    else if n > 0 && m * n > |values| then Err(IndexOutOfBounds)
    else if n <= 0 then Ok(seq(m, i => []))
    else Ok(Slices(values, n, m))
  }

  /** The m consecutive slices of length n. */
  function Slices(values: seq<real>, n: int, m: int): (g: Grid)
    requires n > 0 && m >= 0 && m * n <= |values|
    ensures |g| == m && Rectangular(g, n)
    ensures Flatten(g) == values[..m * n]
    decreases m
  {
    if m == 0 then []
    else
      assert (m - 1) * n + n == m * n;
      var g := Slices(values, n, m - 1);
      var r := g + [values[(m - 1) * n .. m * n]];
      assert r[..|r| - 1] == g;
      assert values[..(m - 1) * n] + values[(m - 1) * n .. m * n] == values[..m * n];
      r
  }

  /** `identity(n, m)`: n rows of m columns, 1 exactly on the diagonal. */
  function Identity(n: nat, m: nat): (r: Grid)
    ensures |r| == n && Rectangular(r, m)
    ensures n >= 1 ==> IsMatrix(r) && Cols(r) == m
  {
    seq(n, i => seq(m, j => if i == j then 1.0 else 0.0))
  }

  /**
   * `identity(n, m)` on the library's Int sizes: a negative m gives empty
   * rows, and n <= 0 gives no rows at all, so the constructor's read of the
   * first row throws.
   */
  function IdentityOf(n: int, m: int): (r: Result<Grid>)
    ensures r.Err? <==> n <= 0
    ensures r.Err? ==> r.error == NoSuchElement
    ensures r.Ok? ==> IsMatrix(r.value) && |r.value| == n && Cols(r.value) == (if m < 0 then 0 else m)
    ensures r.Ok? ==> forall i, j | 0 <= i < |r.value| && 0 <= j < Cols(r.value) ::
      r.value[i][j] == if i == j then 1.0 else 0.0
  {
    if n <= 0 then Err(NoSuchElement) else Ok(Identity(n, if m < 0 then 0 else m))
  }

  // ------------------------------------------------------------------
  // Elementwise arithmetic
  // ------------------------------------------------------------------

  /** `map`: the mapper applied to every entry. */
  function Map(g: Grid, f: real -> real): (r: Grid)
    ensures |r| == |g|
    ensures forall i | 0 <= i < |g| :: |r[i]| == |g[i]|
    ensures forall i, j | 0 <= i < |g| && 0 <= j < |g[i]| :: r[i][j] == f(g[i][j])
  {
    seq(|g|, i requires 0 <= i < |g| => seq(|g[i]|, j requires 0 <= j < |g[i]| => f(g[i][j])))
  }

  /**
   * `map2`: walks the receiver's entries and reads the other matrix at the
   * same position, so an other matrix with fewer rows or columns fails once
   * the receiver has any column at all.
   */
  function Map2(a: Grid, b: Grid, f: (real, real) -> real): (r: Result<Grid>)
    requires IsMatrix(a) && IsMatrix(b)
    ensures r.Err? <==> Cols(a) > 0 && (|b| < |a| || Cols(b) < Cols(a))
    ensures r.Ok? ==> IsMatrix(r.value) && |r.value| == |a| && Cols(r.value) == Cols(a)
    ensures r.Ok? ==> forall i, j | 0 <= i < |a| && 0 <= j < Cols(a) :: r.value[i][j] == f(a[i][j], b[i][j])
  {
    if Cols(a) > 0 && (|b| < |a| || Cols(b) < Cols(a)) then Err(IndexOutOfBounds)
    else Ok(seq(|a|, i requires 0 <= i < |a| => seq(Cols(a), j requires 0 <= j < Cols(a) => f(a[i][j], b[i][j]))))
  }

  function Plus(a: Grid, b: Grid): (r: Result<Grid>)
    requires IsMatrix(a) && IsMatrix(b)
  {
    Map2(a, b, (v, u) => v + u)
  }

  function Minus(a: Grid, b: Grid): (r: Result<Grid>)
    requires IsMatrix(a) && IsMatrix(b)
  {
    Map2(a, b, (v, u) => v - u)
  }

  /** Subtracting what was added gives the receiver back. */
  lemma MinusUndoesPlus(a: Grid, b: Grid)
    requires IsMatrix(a) && IsMatrix(b) && Plus(a, b).Ok?
    ensures Minus(Plus(a, b).value, b) == Ok(a)
  {
    var s := Plus(a, b).value;
    var d := Minus(s, b);
    assert d.Ok?;
    forall i | 0 <= i < |a| ensures d.value[i] == a[i] {
      assert |d.value[i]| == Cols(a) == |a[i]|;
      forall j | 0 <= j < Cols(a) ensures d.value[i][j] == a[i][j] {
        assert d.value[i][j] == s[i][j] - b[i][j];
        assert s[i][j] == a[i][j] + b[i][j];
      }
    }
    assert |d.value| == |a|;
    assert d.value == a;
  }

  /** Scalar `times` (for Float, Double, Int and Long scalars alike). */
  function TimesScalar(g: Grid, s: real): (r: Grid) {
    Map(g, v => s * v)
  }

  /** Scalar `div`: multiplication by the reciprocal. */
  function DivScalar(g: Grid, s: real): (r: Grid)
    requires s != 0.0
  {
    Map(g, v => (1.0 / s) * v)
  }

  lemma DivUndoesTimes(g: Grid, s: real)
    requires s != 0.0
    ensures DivScalar(TimesScalar(g, s), s) == g
  {
    var r := DivScalar(TimesScalar(g, s), s);
    forall i | 0 <= i < |g| ensures r[i] == g[i] {
      forall j | 0 <= j < |g[i]| ensures r[i][j] == g[i][j] {
        assert r[i][j] == (1.0 / s) * (s * g[i][j]);
      }
    }
  }

  /** `unaryMinus`. */
  function Negate(g: Grid): (r: Grid) {
    Map(g, v => -1.0 * v)
  }

  lemma NegateTwice(g: Grid)
    ensures Negate(Negate(g)) == g
  {
    var r := Negate(Negate(g));
    forall i | 0 <= i < |g| ensures r[i] == g[i] {
    }
  }

  // ------------------------------------------------------------------
  // Elementary row operations
  // ------------------------------------------------------------------

  /** `swapRows(r1, r2)`: rows r1 and r2 exchanged, every other row kept. */
  function SwapRows(g: Grid, r1: int, r2: int): (r: Grid)
    requires IsMatrix(g) && 0 <= r1 < |g| && 0 <= r2 < |g|
    ensures IsMatrix(r) && |r| == |g| && Cols(r) == Cols(g)
    ensures r[r1] == g[r2] && r[r2] == g[r1]
    ensures forall i | 0 <= i < |g| && i != r1 && i != r2 :: r[i] == g[i]
  {
    g[r1 := g[r2]][r2 := g[r1]]
  }

  lemma SwapRowsSelf(g: Grid, r: int)
    requires IsMatrix(g) && 0 <= r < |g|
    ensures SwapRows(g, r, r) == g
  {
  }

  lemma SwapRowsTwice(g: Grid, r1: int, r2: int)
    requires IsMatrix(g) && 0 <= r1 < |g| && 0 <= r2 < |g|
    ensures SwapRows(SwapRows(g, r1, r2), r1, r2) == g
  {
  }

  /** `scaleRow(row, scalar)`: that row multiplied by the scalar, every other row kept. */
  function ScaleRow(g: Grid, row: int, s: real): (r: Grid)
    requires IsMatrix(g) && 0 <= row < |g|
    ensures IsMatrix(r) && |r| == |g| && Cols(r) == Cols(g)
    ensures forall j | 0 <= j < Cols(g) :: r[row][j] == g[row][j] * s
    ensures forall i | 0 <= i < |g| && i != row :: r[i] == g[i]
  {
    g[row := seq(Cols(g), j requires 0 <= j < Cols(g) => g[row][j] * s)]
  }

  /** `scaleAddRows(s, r1, r2)`: row r2 becomes s·(row r1) + (row r2), every other row kept. */
  function ScaleAddRows(g: Grid, s: real, r1: int, r2: int): (r: Grid)
    requires IsMatrix(g) && 0 <= r1 < |g| && 0 <= r2 < |g|
    ensures IsMatrix(r) && |r| == |g| && Cols(r) == Cols(g)
    ensures forall j | 0 <= j < Cols(g) :: r[r2][j] == s * g[r1][j] + g[r2][j]
    ensures forall i | 0 <= i < |g| && i != r2 :: r[i] == g[i]
  {
    g[r2 := seq(Cols(g), j requires 0 <= j < Cols(g) => s * g[r1][j] + g[r2][j])]
  }

  /** `addRows(r1, r2)`: row r2 becomes (row r1) + (row r2). */
  function AddRows(g: Grid, r1: int, r2: int): (r: Grid)
    requires IsMatrix(g) && 0 <= r1 < |g| && 0 <= r2 < |g|
    ensures IsMatrix(r) && |r| == |g| && Cols(r) == Cols(g)
    ensures forall j | 0 <= j < Cols(g) :: r[r2][j] == g[r1][j] + g[r2][j]
    ensures forall i | 0 <= i < |g| && i != r2 :: r[i] == g[i]
  {
    ScaleAddRows(g, 1.0, r1, r2)
  }

  // ------------------------------------------------------------------
  // Shape predicates
  // ------------------------------------------------------------------

  /** Every diagonal entry is 1 and every entry below the diagonal is 0. */
  predicate IsEchelonForm(g: Grid) {
    forall i, j | 0 <= i < |g| && 0 <= j < |g[i]| :: (i == j ==> g[i][j] == 1.0) && (i > j ==> g[i][j] == 0.0)
  }

  /** Every off-diagonal entry is 0 and every diagonal entry is 1. */
  predicate IsReducedEchelonForm(g: Grid) {
    forall i, j | 0 <= i < |g| && 0 <= j < |g[i]| :: (i != j ==> g[i][j] == 0.0) && (i == j ==> g[i][j] == 1.0)
  }

  /** Every off-diagonal entry is 0. */
  predicate IsDiagonal(g: Grid) {
    forall i, j | 0 <= i < |g| && 0 <= j < |g[i]| :: i != j ==> g[i][j] == 0.0
  }

  predicate IsZeroRow(row: seq<real>) {
    forall j | 0 <= j < |row| :: row[j] == 0.0
  }

  /** Some row is all zero (the reducer's `anyMatch { r -> r.all { it == 0f } }`). */
  predicate HasZeroRow(g: Grid) {
    exists i | 0 <= i < |g| :: IsZeroRow(g[i])
  }

  /** `diagonal()`: the entries (k, k) for k below the smaller dimension. */
  function Diagonal(g: Grid): (d: seq<real>)
    requires IsMatrix(g)
    ensures |d| == if |g| < Cols(g) then |g| else Cols(g)
    ensures forall k | 0 <= k < |d| :: d[k] == g[k][k]
  {
    seq(if |g| < Cols(g) then |g| else Cols(g), k requires 0 <= k < |g| && k < Cols(g) => g[k][k])
  }

  lemma ReducedIsEchelon(g: Grid)
    requires IsReducedEchelonForm(g)
    ensures IsEchelonForm(g) && IsDiagonal(g)
  {
  }

  /** An echelon matrix with more rows than columns has an all-zero last row. */
  lemma TallEchelonHasZeroRow(g: Grid)
    requires IsMatrix(g) && IsEchelonForm(g) && |g| > Cols(g)
    ensures HasZeroRow(g)
  {
    assert IsZeroRow(g[|g| - 1]);
  }

  /** A square reduced matrix is the identity. */
  lemma SquareReducedIsIdentity(g: Grid)
    requires IsMatrix(g) && Cols(g) == |g| && IsReducedEchelonForm(g)
    ensures g == Identity(|g|, |g|)
  {
    var id := Identity(|g|, |g|);
    forall i | 0 <= i < |g| ensures g[i] == id[i] {
      forall j | 0 <= j < |g| ensures g[i][j] == id[i][j] {
      }
    }
  }

  lemma IdentityIsReduced(n: nat, m: nat)
    ensures IsReducedEchelonForm(Identity(n, m)) && IsEchelonForm(Identity(n, m)) && IsDiagonal(Identity(n, m))
  {
  }

  /** Twice the identity is not reduced, whatever its size. */
  lemma ScaledIdentityNotReduced(n: nat)
    requires n >= 1
    ensures !IsReducedEchelonForm(TimesScalar(Identity(n, n), 2.0))
  {
    var g := TimesScalar(Identity(n, n), 2.0);
    assert g[0][0] == 2.0 * 1.0;
  }

  /** A matrix with a zero row and at least as many columns as rows is not echelon. */
  lemma ZeroRowNotEchelon(g: Grid)
    requires IsMatrix(g) && |g| <= Cols(g) && HasZeroRow(g)
    ensures !IsEchelonForm(g) && !IsReducedEchelonForm(g)
  {
    var i :| 0 <= i < |g| && IsZeroRow(g[i]);
    assert g[i][i] == 0.0;
  }

  // ------------------------------------------------------------------
  // Products
  // ------------------------------------------------------------------

  /** Σ_{t<k} row[t]·x[t][j], accumulated in increasing t. */
  function DotColumn(row: seq<real>, x: Grid, j: nat, k: nat): real
    requires IsMatrix(x) && j < Cols(x) && k <= |row| && k <= |x|
  {
    if k == 0 then 0.0 else DotColumn(row, x, j, k - 1) + row[k - 1] * x[k - 1][j]
  }

  /** A row vector times a matrix. */
  function RowTimes(row: seq<real>, x: Grid): (r: seq<real>)
    requires IsMatrix(x) && |row| == |x|
    ensures |r| == Cols(x)
  {
    seq(Cols(x), j requires 0 <= j < Cols(x) => DotColumn(row, x, j, |row|))
  }

  /** The mathematical product: entry (i, j) is Σ_k a[i][k]·b[k][j]. */
  function Product(a: Grid, b: Grid): (r: Grid)
    requires IsMatrix(a) && IsMatrix(b) && Cols(a) == |b|
    ensures IsMatrix(r) && |r| == |a| && Cols(r) == Cols(b)
    ensures forall i | 0 <= i < |a| :: r[i] == RowTimes(a[i], b)
  {
    seq(|a|, i requires 0 <= i < |a| => RowTimes(a[i], b))
  }

  lemma {:induction false} DotColumnUnit(i: nat, n: nat, x: Grid, j: nat, k: nat)
    requires IsMatrix(x) && |x| == n && j < Cols(x) && i < n && k <= n
    ensures DotColumn(Identity(n, n)[i], x, j, k) == if i < k then x[i][j] else 0.0
  {
    if k > 0 {
      DotColumnUnit(i, n, x, j, k - 1);
    }
  }

  /** The identity is a left unit of the product. */
  lemma IdentityTimes(x: Grid)
    requires IsMatrix(x)
    ensures Product(Identity(|x|, |x|), x) == x
  {
    var n := |x|;
    var p := Product(Identity(n, n), x);
    forall i | 0 <= i < n ensures p[i] == x[i] {
      forall j | 0 <= j < Cols(x) ensures p[i][j] == x[i][j] {
        DotColumnUnit(i, n, x, j, n);
      }
    }
  }

  /** `identity × identity == identity`, for every size. */
  lemma IdentityTimesIdentity(n: nat)
    requires n >= 1
    ensures Product(Identity(n, n), Identity(n, n)) == Identity(n, n)
  {
    IdentityTimes(Identity(n, n));
  }

  lemma {:induction false} DotColumnScaled(row: seq<real>, s: real, x: Grid, j: nat, k: nat)
    requires IsMatrix(x) && j < Cols(x) && k <= |row| && k <= |x|
    ensures DotColumn(seq(|row|, t requires 0 <= t < |row| => row[t] * s), x, j, k) == DotColumn(row, x, j, k) * s
  {
    if k > 0 {
      DotColumnScaled(row, s, x, j, k - 1);
      var sr := seq(|row|, t requires 0 <= t < |row| => row[t] * s);
      assert sr[k - 1] * x[k - 1][j] == (row[k - 1] * x[k - 1][j]) * s;
    }
  }

  lemma {:induction false} DotColumnCombined(r1: seq<real>, r2: seq<real>, s: real, x: Grid, j: nat, k: nat)
    requires IsMatrix(x) && j < Cols(x) && |r1| == |r2| && k <= |r1| && k <= |x|
    ensures DotColumn(seq(|r1|, t requires 0 <= t < |r1| => s * r1[t] + r2[t]), x, j, k)
         == s * DotColumn(r1, x, j, k) + DotColumn(r2, x, j, k)
  {
    if k > 0 {
      DotColumnCombined(r1, r2, s, x, j, k - 1);
      var c := seq(|r1|, t requires 0 <= t < |r1| => s * r1[t] + r2[t]);
      assert c[k - 1] * x[k - 1][j] == s * (r1[k - 1] * x[k - 1][j]) + r2[k - 1] * x[k - 1][j];
    }
  }

  /** Swapping rows of the left factor swaps the rows of the product. */
  lemma SwapRowsProduct(p: Grid, x: Grid, r1: int, r2: int)
    requires IsMatrix(p) && IsMatrix(x) && Cols(p) == |x| && 0 <= r1 < |p| && 0 <= r2 < |p|
    ensures Product(SwapRows(p, r1, r2), x) == SwapRows(Product(p, x), r1, r2)
  {
  }

  /** Scaling a row of the left factor scales that row of the product. */
  lemma ScaleRowProduct(p: Grid, x: Grid, row: int, s: real)
    requires IsMatrix(p) && IsMatrix(x) && Cols(p) == |x| && 0 <= row < |p|
    ensures Product(ScaleRow(p, row, s), x) == ScaleRow(Product(p, x), row, s)
  {
    var lhs := Product(ScaleRow(p, row, s), x);
    var rhs := ScaleRow(Product(p, x), row, s);
    assert ScaleRow(p, row, s)[row] == seq(|p[row]|, t requires 0 <= t < |p[row]| => p[row][t] * s);
    forall j | 0 <= j < Cols(x) ensures lhs[row][j] == rhs[row][j] {
      DotColumnScaled(p[row], s, x, j, |p[row]|);
    }
    forall i | 0 <= i < |p| ensures lhs[i] == rhs[i] {
      if i == row {
        assert lhs[i] == rhs[i];
      }
    }
  }

  /** Adding a multiple of one row of the left factor to another does the same to the product. */
  lemma ScaleAddRowsProduct(p: Grid, x: Grid, s: real, r1: int, r2: int)
    requires IsMatrix(p) && IsMatrix(x) && Cols(p) == |x| && 0 <= r1 < |p| && 0 <= r2 < |p|
    ensures Product(ScaleAddRows(p, s, r1, r2), x) == ScaleAddRows(Product(p, x), s, r1, r2)
  {
    var lhs := Product(ScaleAddRows(p, s, r1, r2), x);
    var rhs := ScaleAddRows(Product(p, x), s, r1, r2);
    assert ScaleAddRows(p, s, r1, r2)[r2] == seq(|p[r1]|, t requires 0 <= t < |p[r1]| => s * p[r1][t] + p[r2][t]);
    forall j | 0 <= j < Cols(x) ensures lhs[r2][j] == rhs[r2][j] {
      DotColumnCombined(p[r1], p[r2], s, x, j, |p[r1]|);
    }
    forall i | 0 <= i < |p| ensures lhs[i] == rhs[i] {
      if i == r2 {
        assert lhs[i] == rhs[i];
      }
    }
  }

  /**
   * What `times(Matrixf)` computes. The output starts as `identity(a.n, b.m)`
   * (a's column count rows, b's row count columns); rows i < a.m are
   * overwritten with Σ_k a[i][k]·b[k][j]. With no columns in a, that
   * identity has no rows and throws; otherwise the writes and reads go out
   * of bounds unless a.m <= a.n <= b.m <= b.n.
   */
  function TimesSpec(a: Grid, b: Grid): (r: Result<Grid>)
    requires IsMatrix(a) && IsMatrix(b)
  {
    if Cols(a) == 0 then Err(NoSuchElement)
    else if |a| > Cols(a) || Cols(a) > |b| || |b| > Cols(b) then Err(IndexOutOfBounds)
    else Ok(seq(Cols(a), i requires 0 <= i < Cols(a) => seq(|b|, j requires 0 <= j < |b| =>
      if i < |a| then DotColumn(a[i], b, j, Cols(a)) else if i == j then 1.0 else 0.0)))
  }

  /** For square operands of one size, `times` is the mathematical product. */
  lemma TimesSquare(a: Grid, b: Grid)
    requires IsMatrix(a) && IsMatrix(b) && Cols(a) == |a| && |b| == |a| && Cols(b) == |b|
    ensures TimesSpec(a, b) == Ok(Product(a, b))
  {
    var t := TimesSpec(a, b).value;
    var p := Product(a, b);
    forall i | 0 <= i < |a| ensures t[i] == p[i] {
      assert |t[i]| == |b| == |p[i]|;
      forall j | 0 <= j < |b| ensures t[i][j] == p[i][j] {
        assert p[i] == RowTimes(a[i], b);
      }
    }
    assert |t| == |p|;
    assert t == p;
  }

  /** `times(Matrixf)`: fills an output matrix in place, entry by entry. */
  method Times(a: Grid, b: Grid) returns (r: Result<Grid>)
    requires IsMatrix(a) && IsMatrix(b)
    ensures r == TimesSpec(a, b)
  {
    if Cols(a) == 0 {
      return Err(NoSuchElement);
    }
    if |a| > Cols(a) || Cols(a) > |b| || |b| > Cols(b) {
      return Err(IndexOutOfBounds);
    }
    var n := Cols(a);
    var out := new real[n, |b|]((p, q) => if p == q then 1.0 else 0.0);
    var i := 0;
    while i < |a|
      invariant 0 <= i <= |a|
      invariant forall p, q | 0 <= p < n && 0 <= q < |b| ::
        out[p, q] == if p < i then DotColumn(a[p], b, q, n) else if p == q then 1.0 else 0.0
    {
      var j := 0;
      while j < |b|
        invariant 0 <= j <= |b|
        invariant forall p, q | 0 <= p < n && 0 <= q < |b| ::
          out[p, q] == if p < i || (p == i && q < j) then DotColumn(a[p], b, q, n) else if p == q then 1.0 else 0.0
      {
        out[i, j] := 0.0;
        var k := 0;
        while k < n
          invariant 0 <= k <= n
          invariant out[i, j] == DotColumn(a[i], b, j, k)
          invariant forall p, q | 0 <= p < n && 0 <= q < |b| && (p != i || q != j) ::
            out[p, q] == if p < i || (p == i && q < j) then DotColumn(a[p], b, q, n) else if p == q then 1.0 else 0.0
        {
          out[i, j] := out[i, j] + a[i][k] * b[k][j];
          k := k + 1;
        }
        j := j + 1;
      }
      i := i + 1;
    }
    var g := seq(n, p requires 0 <= p < n reads out => seq(|b|, q requires 0 <= q < |b| reads out => out[p, q]));
    forall p | 0 <= p < n ensures g[p] == TimesSpec(a, b).value[p] {
      forall q | 0 <= q < |b| ensures g[p][q] == TimesSpec(a, b).value[p][q] {
      }
    }
    assert g == TimesSpec(a, b).value;
    r := Ok(g);
  }

  // ------------------------------------------------------------------
  // Adjoining and equality
  // ------------------------------------------------------------------

  /** `adjoin(matrix)`: zips the rows, so the shorter matrix decides the row count. */
  function Adjoin(a: Grid, b: Grid): (r: Grid)
    ensures |r| == if |a| < |b| then |a| else |b|
    ensures forall i | 0 <= i < |r| :: r[i] == a[i] + b[i]
  {
    seq(if |a| < |b| then |a| else |b|, i requires 0 <= i < |a| && i < |b| => a[i] + b[i])
  }

  /** `adjoin(vector)`: the vector becomes a one-column matrix (failing when empty) and is adjoined. */
  function AdjoinVector(a: Grid, v: seq<real>): (r: Result<Grid>)
    ensures r.Err? <==> |v| == 0
    ensures r.Ok? ==> |r.value| == (if |a| < |v| then |a| else |v|)
    ensures r.Ok? ==> forall i | 0 <= i < |r.value| :: r.value[i] == a[i] + [v[i]]
  {
    match From(1, |v|, v)
    case Err(e) => Err(e)
    case Ok(column) =>
      assert forall i | 0 <= i < |v| :: column[i] == [v[i]] by {
        ColumnFromVector(v, column);
      }
      Ok(Adjoin(a, column))
  }

  lemma ColumnFromVector(v: seq<real>, column: Grid)
    requires From(1, |v|, v) == Ok(column)
    ensures forall i | 0 <= i < |v| :: column[i] == [v[i]]
  {
    SlicesOfOne(v, |v|);
  }

  lemma {:induction false} SlicesOfOne(v: seq<real>, m: nat)
    requires m <= |v|
    ensures forall i | 0 <= i < m :: Slices(v, 1, m)[i] == [v[i]]
  {
    if m > 0 {
      SlicesOfOne(v, m - 1);
      assert v[m - 1 .. m] == [v[m - 1]];
    }
  }

  /** `equals`: same shape and the same entries. */
  function Equals(a: Grid, b: Grid): (r: bool)
    requires IsMatrix(a) && IsMatrix(b)
    ensures r <==> a == b
  {
    |a| == |b| && Cols(a) == Cols(b) && forall i | 0 <= i < |a| :: a[i] == b[i]
  }
}
