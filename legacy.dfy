/**
 * The older matrix class, src/Matrixf.kt. Its row operations, predicates,
 * product and adjoin are those of Matrices; what differs is `determinant`,
 * which has neither the square check nor the 2x2 closed form, and so
 * `inverse`, which is built on it.
 */
module LegacyMatrix {
  import opened Wrappers
  import opened Matrices
  import opened GaussJordan
  import Determinants

  /**
   * The older `determinant()`: always from the reduced form; a zero row
   * gives 0, else the reciprocal of the trace factor.
   */
  function DeterminantOf(a: Grid): (r: Result<real>)
    requires IsMatrix(a)
    ensures r.Err? <==> ReduceToReducedEchelon(a).Err?
    ensures r.Err? ==> r.error == ReduceToReducedEchelon(a).error
    ensures HasZeroRow(a) ==> r == Ok(0.0)
  {
    match ReduceToReducedEchelon(a)
    case Err(e) => Err(e)
    case Ok(ech) =>
      if HasZeroRow(ech.matrix) then Ok(0.0)
      else
        Determinants.TraceFactorNonzero(ech.trace);
        Ok(1.0 / Determinants.TraceFactor(ech.trace))
  }

  /**
   * The older `inverse()`: None when the determinant is 0, else the trace
   * replayed on identity(n, m) when the reduction is REDUCED_ROW_ECHELON.
   * A REDUCED_ROW_ECHELON result has no more rows than columns, so every
   * move fits the n-row identity.
   */
  function InverseOf(a: Grid): (r: Result<Option<Grid>>)
    requires IsMatrix(a)
    ensures r.Err? <==> ReduceToReducedEchelon(a).Err?
    ensures DeterminantOf(a) == Ok(0.0) ==> r == Ok(None)
    ensures r.Ok? && r.value.Some? ==> IsMatrix(r.value.value) && |r.value.value| == Cols(a) && Cols(r.value.value) == |a|
  {
    match DeterminantOf(a)
    case Err(e) => Err(e)
    case Ok(d) =>
      if d == 0.0 then Ok(None)
      else
        match ReduceToReducedEchelon(a)
        case Err(e) => Err(e)
        case Ok(reduced) =>
          if reduced.resultType == REDUCED_ROW_ECHELON then
            ReducedResult(a);
            Ok(Some(Replay(Identity(Cols(a), |a|), reduced.trace)))
          else Ok(None)
  }

  /** On square matrices other than 2x2 the two versions agree. */
  lemma AgreesOnSquare(a: Grid)
    requires IsMatrix(a) && |a| == Cols(a) != 2
    ensures DeterminantOf(a) == Determinants.DeterminantOf(a)
    ensures InverseOf(a) == Determinants.InverseOf(a)
  {
  }

  /**
   * A one-row matrix is accepted by the older determinant and inverse,
   * which the newer ones refuse: [[1, 0]] gets determinant 1 and the 2x1
   * "inverse" [[1], [0]].
   */
  lemma NonSquareAccepted()
    ensures IsMatrix([[1.0, 0.0]])
    ensures DeterminantOf([[1.0, 0.0]]) == Ok(1.0)
    ensures InverseOf([[1.0, 0.0]]) == Ok(Some([[1.0], [0.0]]))
    ensures Determinants.DeterminantOf([[1.0, 0.0]]) == Err(NonSquare)
    ensures Determinants.InverseOf([[1.0, 0.0]]) == Err(NonSquare)
  {
    var a: Grid := [[1.0, 0.0]];
    assert a[0][0] != 0.0;
    assert !HasZeroRow(a);
    assert IsReducedEchelonForm(a);
    var id := Identity(2, 1);
    assert id[0] == [1.0] && id[1] == [0.0];
    assert id == [[1.0], [0.0]];
  }

  /**
   * Without the 2x2 closed form, the singular [[1, 1], [1, 1]] goes through
   * the reducer: the forward pass swaps the zero row it creates back to the
   * top (PARAMETRIC), the backward pass cannot reduce that, and the older
   * determinant throws where the newer one returns 0.
   */
  lemma SingularTwoByTwo()
    ensures IsMatrix([[1.0, 1.0], [1.0, 1.0]])
    ensures DeterminantOf([[1.0, 1.0], [1.0, 1.0]]) == Err(ReductionFailed)
    ensures Determinants.DeterminantOf([[1.0, 1.0], [1.0, 1.0]]) == Ok(0.0)
  {
    SingularReduced();
    SingularClosedForm();
  }

  lemma SingularClosedForm()
    ensures Determinants.DeterminantOf([[1.0, 1.0], [1.0, 1.0]]) == Ok(0.0)
  {
    var a: Grid := [[1.0, 1.0], [1.0, 1.0]];
    Determinants.DeterminantTwo(a);
    assert a[0][0] == a[0][1] == a[1][0] == a[1][1] == 1.0;
  }

  lemma SingularReduced()
    ensures ReduceToReducedEchelon([[1.0, 1.0], [1.0, 1.0]]) == Err(ReductionFailed)
  {
    SingularShapes();
    SingularEchelon();
    SingularBackward();
    var e: Grid := [[0.0, 0.0], [1.0, 1.0]];
    assert e[0][0] != 1.0;
    assert !IsReducedEchelonForm(e);
  }

  lemma SingularEchelon()
    ensures ReduceToEchelon([[1.0, 1.0], [1.0, 1.0]])
      == Ok(ReductionResult([[0.0, 0.0], [1.0, 1.0]], [Add(-1.0, 0, 1), Swap(1, 0)], PARAMETRIC))
  {
    SingularShapes();
    SingularForward();
  }

  /** [[1, 1], [1, 1]] has no zero row and is not in echelon form; its forward result has a zero row. */
  lemma SingularShapes()
    ensures !HasZeroRow([[1.0, 1.0], [1.0, 1.0]]) && !IsEchelonForm([[1.0, 1.0], [1.0, 1.0]])
    ensures !IsReducedEchelonForm([[1.0, 1.0], [1.0, 1.0]])
    ensures HasZeroRow([[0.0, 0.0], [1.0, 1.0]])
  {
    var a: Grid := [[1.0, 1.0], [1.0, 1.0]];
    assert a[0][0] != 0.0 && a[1][0] != 0.0;
    assert !IsZeroRow(a[0]) && !IsZeroRow(a[1]);
    assert a[0][1] != 0.0;
    var e: Grid := [[0.0, 0.0], [1.0, 1.0]];
    assert IsZeroRow(e[0]);
  }

  lemma SingularForward()
    ensures ForwardFrom(State([[1.0, 1.0], [1.0, 1.0]], []), 0, FromTop)
      == Ok(State([[0.0, 0.0], [1.0, 1.0]], [Add(-1.0, 0, 1), Swap(1, 0)]))
  {
    var st := State([[1.0, 1.0], [1.0, 1.0]], []);
    assert PivotRow(st.m, 0, FromTop) == Some(0);
    assert SwapInto(st, 0, 0) == st && ScaleToOne(st, 0) == st;
    var s1 := Record(st, Add(-1.0, 0, 1));
    assert s1.m[1] == [0.0, 0.0] by {
      assert |s1.m[1]| == 2;
    }
    assert s1.m == [[1.0, 1.0], [0.0, 0.0]];
    assert EliminateBelow(st, 0, 1) == EliminateBelow(s1, 0, 2) == s1;
    assert ForwardStep(st, 0, FromTop) == Ok(s1);
    assert FirstNonzeroRow(s1.m, 1, 0) == Some(0);
    assert PivotRow(s1.m, 1, FromTop) == Some(0);
    var s2 := Record(s1, Swap(1, 0));
    assert s2.m == [[0.0, 0.0], [1.0, 1.0]];
    assert SwapInto(s1, 1, 0) == s2 && ScaleToOne(s2, 1) == s2;
    assert EliminateBelow(s2, 1, 2) == s2;
    assert ForwardStep(s1, 1, FromTop) == Ok(s2);
    assert s2.moves == [Add(-1.0, 0, 1), Swap(1, 0)];
    assert ForwardFrom(st, 0, FromTop) == ForwardFrom(s1, 1, FromTop) == ForwardFrom(s2, 2, FromTop) == Ok(s2);
  }

  lemma SingularBackward()
    ensures BackwardFrom(State([[0.0, 0.0], [1.0, 1.0]], [Add(-1.0, 0, 1), Swap(1, 0)]), 0)
      == Ok(State([[0.0, 0.0], [1.0, 1.0]], [Add(-1.0, 0, 1), Swap(1, 0), Add(-1.0, 0, 1)]))
  {
    var st := State([[0.0, 0.0], [1.0, 1.0]], [Add(-1.0, 0, 1), Swap(1, 0)]);
    assert BackwardRow(st, 0, 0) == BackwardRow(st, 0, 1) == BackwardRow(st, 0, 2) == Ok(st);
    var next := Record(st, Add(-1.0, 0, 1));
    assert next.m[1] == [1.0, 1.0] by {
      assert |next.m[1]| == 2;
    }
    assert next.m == st.m;
    assert next == State([[0.0, 0.0], [1.0, 1.0]], [Add(-1.0, 0, 1), Swap(1, 0), Add(-1.0, 0, 1)]);
    assert BackwardRow(st, 1, 0) == BackwardRow(next, 1, 1) == BackwardRow(next, 1, 2) == Ok(next);
    assert BackwardFrom(st, 0) == BackwardFrom(st, 1) == BackwardFrom(next, 2) == Ok(next);
  }
}
