/**
 * The matrix object of src/main/java/Matrixf.kt with its two private
 * caches: `echelonForm` and `reducedEchelonForm` are computed on the first
 * call and the cached result is returned on every later one;
 * the reduced form is built on the echelon cache, and `determinant` and
 * `inverse` go through the reduced-form cache.
 */
module MatrixObject {
  import opened Wrappers
  import opened Matrices
  import opened GaussJordan
  import opened Determinants

  class Matrixf {
    /** The rows; `m` is |rows| and `n` is Cols(rows). */
    const rows: Grid
    /** The private `echelonForm` cache: None until the first successful call. */
    var echelonMemo: Option<ReductionResult>
    /** The private `reducedEchelonForm` cache. */
    var reducedMemo: Option<ReductionResult>

    /** A cached result is always the one a fresh reduction would give. */
    ghost predicate Valid()
      reads this
    {
      && IsMatrix(rows)
      && (echelonMemo.Some? ==> ReduceToEchelon(rows) == Ok(echelonMemo.value))
      && (reducedMemo.Some? ==> ReduceToReducedEchelon(rows) == Ok(reducedMemo.value))
    }

    constructor (g: Grid)
      requires IsMatrix(g)
      ensures Valid() && rows == g && echelonMemo == None && reducedMemo == None
    {
      rows := g;
      echelonMemo := None;
      reducedMemo := None;
    }

    /**
     * `echelonForm()`: reduce on the first call, then answer from the cache.
     * A reduction that throws leaves the cache empty.
     */
    method EchelonForm() returns (r: Result<ReductionResult>)
      requires Valid()
      modifies this
      ensures Valid()
      ensures r == ReduceToEchelon(rows)
      ensures old(echelonMemo).Some? ==> r == Ok(old(echelonMemo).value)
      ensures echelonMemo == if r.Ok? then Some(r.value) else old(echelonMemo)
      ensures reducedMemo == old(reducedMemo)
    {
      if echelonMemo.None? {
        var res := ReduceMatrixToEchelon(rows);
        if res.Err? {
          return res;
        }
        echelonMemo := Some(res.value);
      }
      return Ok(echelonMemo.value);
    }

    /**
     * The echelon cache once `reducedEchelonForm()` has run from the current
     * caches: past the fast paths an empty reduced cache sends the reducer
     * to `echelonForm()`, which fills the echelon cache when it succeeds.
     */
    ghost function EchelonMemoAfterReduced(): Option<ReductionResult>
      reads this
      requires IsMatrix(rows)
    {
      if reducedMemo.None? && !HasZeroRow(rows) && !IsReducedEchelonForm(rows) && ReduceToEchelon(rows).Ok?
      then Some(ReduceToEchelon(rows).value)
      else echelonMemo
    }

    /** The reduced cache once `reducedEchelonForm()` has run from the current caches. */
    ghost function ReducedMemoAfterReduced(): Option<ReductionResult>
      reads this
      requires IsMatrix(rows)
    {
      if reducedMemo.None? && ReduceToReducedEchelon(rows).Ok? then Some(ReduceToReducedEchelon(rows).value)
      else reducedMemo
    }

    /**
     * `reducedEchelonForm()`: the same caching around the reduced form; the
     * reducer's fast paths, then this matrix's own (cached) echelon form.
     */
    method ReducedEchelonForm() returns (r: Result<ReductionResult>)
      requires Valid()
      modifies this
      ensures Valid()
      ensures r == ReduceToReducedEchelon(rows)
      ensures old(reducedMemo).Some? ==> r == Ok(old(reducedMemo).value)
      ensures reducedMemo == old(ReducedMemoAfterReduced())
      ensures echelonMemo == old(EchelonMemoAfterReduced())
    {
      if reducedMemo.None? {
        var res;
        if HasZeroRow(rows) {
          res := Ok(ReductionResult(rows, [], PARAMETRIC));
        } else if IsReducedEchelonForm(rows) {
          res := Ok(ReductionResult(rows, [], REDUCED_ROW_ECHELON));
        } else {
          var echelon := EchelonForm();
          res := ReduceFromEchelon(rows, echelon);
        }
        if res.Err? {
          return res;
        }
        reducedMemo := Some(res.value);
      }
      return Ok(reducedMemo.value);
    }

    /** `determinant()`: the shape checks, the 2x2 formula, else the cached reduced form. */
    method Determinant() returns (r: Result<real>)
      requires Valid()
      modifies this
      ensures Valid()
      ensures r == DeterminantOf(rows)
      ensures echelonMemo == if |rows| == Cols(rows) != 2 then old(EchelonMemoAfterReduced()) else old(echelonMemo)
      ensures reducedMemo == if |rows| == Cols(rows) != 2 then old(ReducedMemoAfterReduced()) else old(reducedMemo)
    {
      if Cols(rows) != |rows| {
        return Err(NonSquare);
      }
      if Cols(rows) == 2 {
        var g := rows;
        r := Ok(g[0][0] * g[1][1] - g[0][1] * g[1][0]);
        DeterminantTwo(g);
        return;
      }
      var ech := ReducedEchelonForm();
      if ech.Err? {
        return Err(ech.error);
      }
      if HasZeroRow(ech.value.matrix) {
        return Ok(0.0);
      }
      TraceFactorNonzero(ech.value.trace);
      return Ok(1.0 / TraceFactor(ech.value.trace));
    }

    /**
     * `inverse()`: None when the determinant is 0, else the reduced trace
     * replayed on identity(n, m) when the reduction is REDUCED_ROW_ECHELON.
     * The reduced form is consulted by every square matrix but a 2x2 one of
     * determinant 0.
     */
    method Inverse() returns (r: Result<Option<Grid>>)
      requires Valid()
      modifies this
      ensures Valid()
      ensures r == InverseOf(rows)
      ensures echelonMemo == if |rows| == Cols(rows) && (Cols(rows) != 2 || DeterminantOf(rows) != Ok(0.0))
        then old(EchelonMemoAfterReduced()) else old(echelonMemo)
      ensures reducedMemo == if |rows| == Cols(rows) && (Cols(rows) != 2 || DeterminantOf(rows) != Ok(0.0))
        then old(ReducedMemoAfterReduced()) else old(reducedMemo)
    {
      var d := Determinant();
      if d.Err? {
        return Err(d.error);
      }
      if d.value == 0.0 {
        return Ok(None);
      }
      var reduced := ReducedEchelonForm();
      if reduced.Err? {
        return Err(reduced.error);
      }
      if reduced.value.resultType == REDUCED_ROW_ECHELON {
        return Ok(Some(Replay(Identity(Cols(rows), |rows|), reduced.value.trace)));
      }
      return Ok(None);
    }
  }

  /**
   * Asking twice gives the identical result, and the second answer comes
   * from the cache: the cache holds it after the first successful call.
   */
  method EchelonFormTwice(a: Grid) returns (first: Result<ReductionResult>, second: Result<ReductionResult>)
    requires IsMatrix(a)
    ensures first == second == ReduceToEchelon(a)
  {
    var mat := new Matrixf(a);
    first := mat.EchelonForm();
    assert first.Ok? ==> mat.echelonMemo == Some(first.value);
    second := mat.EchelonForm();
  }
}
