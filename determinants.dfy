/**
 * The determinant and the inverse of Matrixf (src/main/java/Matrixf.kt),
 * both computed from the reduced row echelon form and its trace. The
 * Matrixf object with its two memoised reductions is in module MatrixObject.
 */
module Determinants {
  import opened Wrappers
  import opened Matrices
  import opened GaussJordan

  /** What folding one move does to the accumulator: a swap negates it, a scale multiplies it by its scalar, an add leaves it. */
  function MoveFactor(mv: Move): real {
    match mv
    case Swap(_, _) => -1.0
    case Scale(s, _) => s
    case Add(_, _, _) => 1.0
  }

  /** The trace folded from the right, starting at 1. */
  function TraceFactor(t: seq<Move>): real {
    if t == [] then 1.0 else TraceFactor(t[1..]) * MoveFactor(t[0])
  }

  /** The factor of a concatenation is the product of the factors. */
  lemma {:induction false} TraceFactorAppend(t: seq<Move>, u: seq<Move>)
    ensures TraceFactor(t + u) == TraceFactor(t) * TraceFactor(u)
    decreases |t|
  {
    if t == [] {
      assert t + u == u;
    } else {
      assert (t + u)[1..] == t[1..] + u;
      assert (t + u)[0] == t[0];
      TraceFactorAppend(t[1..], u);
      var x, y, f := TraceFactor(t[1..]), TraceFactor(u), MoveFactor(t[0]);
      assert TraceFactor(t + u) == (x * y) * f;
      assert (x * y) * f == (x * f) * y;
    }
  }

  /** A trace whose scales are all by nonzero scalars has a nonzero factor. */
  lemma {:induction false} TraceFactorNonzero(t: seq<Move>)
    requires forall k | 0 <= k < |t| :: t[k].Scale? ==> t[k].scalar != 0.0
    ensures TraceFactor(t) != 0.0
    decreases |t|
  {
    if t != [] {
      TraceFactorNonzero(t[1..]);
    }
  }

  /**
   * `determinant()`: non-square matrices are refused; a 2x2 matrix uses
   * ad - bc; otherwise the reduced form decides: a zero row gives 0, else
   * the reciprocal of the trace factor.
   */
  function DeterminantOf(a: Grid): (r: Result<real>)
    requires IsMatrix(a)
    ensures r == Err(NonSquare) <==> |a| != Cols(a)
    ensures |a| == Cols(a) == 2 ==> r == Ok(a[0][0] * a[1][1] - a[0][1] * a[1][0])
  {
    if Cols(a) != |a| then Err(NonSquare)
    else if Cols(a) == 2 then Ok(a[0][0] * a[1][1] - a[0][1] * a[1][0])
    else
      match ReduceToReducedEchelon(a)
      case Err(e) => Err(e)
      case Ok(ech) =>
        if HasZeroRow(ech.matrix) then Ok(0.0)
        else
          TraceFactorNonzero(ech.trace);
          Ok(1.0 / TraceFactor(ech.trace))
  }

  /**
   * `inverse()`: no inverse when the determinant is 0; otherwise the
   * reduced form's trace replayed on the identity when the reduction is
   * REDUCED_ROW_ECHELON, and no inverse for any other result.
   */
  function InverseOf(a: Grid): (r: Result<Option<Grid>>)
    requires IsMatrix(a)
    ensures r.Err? <==> DeterminantOf(a).Err? || (DeterminantOf(a) != Ok(0.0) && ReduceToReducedEchelon(a).Err?)
    ensures DeterminantOf(a) == Ok(0.0) ==> r == Ok(None)
    ensures r.Ok? && r.value.Some? ==> IsMatrix(r.value.value) && |r.value.value| == |a| == Cols(r.value.value) == Cols(a)
  {
    match DeterminantOf(a)
    case Err(e) => Err(e)
    case Ok(d) =>
      if d == 0.0 then Ok(None)
      else
        match ReduceToReducedEchelon(a)
        case Err(e) => Err(e)
        case Ok(reduced) =>
          if reduced.resultType == REDUCED_ROW_ECHELON then
            Ok(Some(Replay(Identity(Cols(a), |a|), reduced.trace)))
          else Ok(None)
  }

  /** The inverse, when there is one, is a left inverse: inverse times the matrix is the identity. */
  lemma InverseIsLeftInverse(a: Grid)
    requires IsMatrix(a) && InverseOf(a).Ok? && InverseOf(a).value.Some?
    ensures Product(InverseOf(a).value.value, a) == Identity(|a|, |a|)
  {
    ReducedResult(a);
    ReducedTrace(a);
    var res := ReduceToReducedEchelon(a).value;
    ReplayOnIdentity(a, res.trace);
    SquareReducedIsIdentity(res.matrix);
  }

  /**
   * The inverse, when there is one, is also a right inverse: the matrix
   * times its inverse, by `times` as well, is the identity. The undo of the
   * reduction's trace carries the identity back to the matrix, and the
   * same undo replayed on the inverse gives the identity.
   */
  lemma InverseIsRightInverse(a: Grid)
    requires IsMatrix(a) && InverseOf(a).Ok? && InverseOf(a).value.Some?
    ensures Product(a, InverseOf(a).value.value) == Identity(|a|, |a|)
    ensures TimesSpec(a, InverseOf(a).value.value) == Ok(Identity(|a|, |a|))
  {
    ReducedResult(a);
    ReducedTrace(a);
    var res := ReduceToReducedEchelon(a).value;
    var n := |a|;
    var id := Identity(n, n);
    SquareReducedIsIdentity(res.matrix);
    assert Replay(a, res.trace) == id;
    assert InvertibleTrace(res.trace, n) by {
      forall k | 0 <= k < |res.trace| ensures Invertible(res.trace[k]) && Fits(res.trace[k], n) {
        assert WellFormed(res.trace[k]);
      }
    }
    var undo := UndoAll(res.trace, n);
    var inv := Replay(id, res.trace);
    assert inv == InverseOf(a).value.value;
    ReplayUndoAll(a, res.trace);
    assert Replay(id, undo) == a;
    ReplayUndoAll(id, res.trace);
    ReplayOnIdentity(inv, undo);
    TimesSquare(a, inv);
  }

  /**
   * Beyond 2x2, the determinant of a square matrix is 0 exactly when the
   * matrix itself has a zero row: the reducer reports PARAMETRIC only from
   * its zero-row fast path, and a reduction that gets past it either fails
   * or ends in the identity.
   */
  lemma DeterminantZeroIffZeroRow(a: Grid)
    requires IsMatrix(a) && |a| == Cols(a) != 2 && DeterminantOf(a).Ok?
    ensures DeterminantOf(a) == Ok(0.0) <==> HasZeroRow(a)
  {
    var r := ReduceToReducedEchelon(a);
    assert r.Ok?;
    ReducedResult(a);
    var res := r.value;
    if HasZeroRow(a) {
      assert res.matrix == a;
    } else {
      assert !HasZeroRow(res.matrix);
      var f := TraceFactor(res.trace);
      TraceFactorNonzero(res.trace);
      ReciprocalNonzero(f);
      assert DeterminantOf(a) == Ok(1.0 / f);
    }
  }

  lemma ReciprocalNonzero(x: real)
    requires x != 0.0
    ensures 1.0 / x != 0.0
  {
  }

  /** A square matrix with a zero row has determinant 0 and no inverse, at every size. */
  lemma ZeroRowDeterminant(a: Grid)
    requires IsMatrix(a) && |a| == Cols(a) && HasZeroRow(a)
    ensures DeterminantOf(a) == Ok(0.0) && InverseOf(a) == Ok(None)
  {
    if |a| == 2 {
      var i :| 0 <= i < 2 && IsZeroRow(a[i]);
      assert a[i][0] == 0.0 && a[i][1] == 0.0;
    }
  }

  /** The identity has determinant 1 and is its own inverse. */
  lemma IdentityDeterminant(n: nat)
    requires n >= 1
    ensures DeterminantOf(Identity(n, n)) == Ok(1.0)
    ensures InverseOf(Identity(n, n)) == Ok(Some(Identity(n, n)))
  {
    var id := Identity(n, n);
    IdentityIsReduced(n, n);
    if HasZeroRow(id) {
      ZeroRowNotEchelon(id);
    }
    if n == 2 {
      assert id[0][0] == 1.0 && id[1][1] == 1.0 && id[0][1] == 0.0 && id[1][0] == 0.0;
    }
  }

  // ------------------------------------------------------------------
  // Diagonal matrices
  // ------------------------------------------------------------------

  /** The entries a[k][k] of the diagonal, top to bottom. */
  function DiagonalEntries(a: Grid): (d: seq<real>)
    requires IsMatrix(a) && |a| <= Cols(a)
    ensures |d| == |a| && forall k | 0 <= k < |a| :: d[k] == a[k][k]
  {
    seq(|a|, k requires 0 <= k < |a| => a[k][k])
  }

  /** The product of a sequence of reals, 1 for the empty one. */
  function ProductOf(s: seq<real>): real {
    if s == [] then 1.0 else s[0] * ProductOf(s[1..])
  }

  /** A product with a zero factor is zero. */
  lemma {:induction false} ProductOfZero(s: seq<real>, k: nat)
    requires k < |s| && s[k] == 0.0
    ensures ProductOf(s) == 0.0
  {
    if k > 0 {
      ProductOfZero(s[1..], k - 1);
      assert ProductOf(s) == s[0] * 0.0;
    }
  }

  predicate NonzeroDiagonal(a: Grid)
    requires IsMatrix(a) && |a| <= Cols(a)
  {
    forall k | 0 <= k < |a| :: a[k][k] != 0.0
  }

  /** The scales the forward pass records on a diagonal matrix from row i on. */
  function DiagonalScales(a: Grid, i: nat): seq<Move>
    requires IsMatrix(a) && |a| <= Cols(a) && NonzeroDiagonal(a)
    decreases |a| - i
  {
    if i >= |a| then []
    else PivotScale(a, i) + DiagonalScales(a, i + 1)
  }

  /** The scale the forward pass records at pivot i of a diagonal matrix, if the pivot is not 1. */
  function PivotScale(a: Grid, i: nat): seq<Move>
    requires IsMatrix(a) && i < |a| <= Cols(a) && NonzeroDiagonal(a)
  {
    if a[i][i] != 1.0 then [Scale(1.0 / a[i][i], i)] else []
  }

  /** The trace the reduction records on a diagonal matrix: one scale per pivot that is not yet 1. */
  function DiagonalTrace(a: Grid): seq<Move>
    requires IsMatrix(a) && |a| <= Cols(a) && NonzeroDiagonal(a)
  {
    DiagonalScales(a, 0)
  }

  /** The product of the diagonal entries from row i on. */
  function DiagonalProductFrom(a: Grid, i: nat): real
    requires IsMatrix(a) && |a| <= Cols(a)
    decreases |a| - i
  {
    if i >= |a| then 1.0 else a[i][i] * DiagonalProductFrom(a, i + 1)
  }

  lemma {:induction false} DiagonalProductIsProduct(a: Grid, i: nat)
    requires IsMatrix(a) && |a| <= Cols(a) && i <= |a|
    ensures DiagonalProductFrom(a, i) == ProductOf(DiagonalEntries(a)[i..])
    decreases |a| - i
  {
    if i < |a| {
      DiagonalProductIsProduct(a, i + 1);
      ProductOfSuffix(DiagonalEntries(a), i);
    } else {
      assert DiagonalEntries(a)[i..] == [];
    }
  }

  /** The factor a pivot's scale contributes: its reciprocal, or 1 when no scale is recorded. */
  function Recip(x: real): real {
    if x != 0.0 && x != 1.0 then 1.0 / x else 1.0
  }

  /** The product of the reciprocals of the diagonal entries from row i on. */
  function DiagonalRecipFrom(a: Grid, i: nat): real
    requires IsMatrix(a) && |a| <= Cols(a)
    decreases |a| - i
  {
    if i >= |a| then 1.0 else Recip(a[i][i]) * DiagonalRecipFrom(a, i + 1)
  }

  /** The scales recorded from row i on multiply to the reciprocal product from row i on. */
  lemma {:induction false} DiagonalScalesFactor(a: Grid, i: nat)
    requires IsMatrix(a) && |a| <= Cols(a) && NonzeroDiagonal(a)
    ensures TraceFactor(DiagonalScales(a, i)) == DiagonalRecipFrom(a, i)
    decreases |a| - i
  {
    if i < |a| {
      DiagonalScalesFactor(a, i + 1);
      PivotScaleFactor(a, i);
      TraceFactorAppend(PivotScale(a, i), DiagonalScales(a, i + 1));
    }
  }

  /** The reciprocal product undoes the diagonal product. */
  lemma {:induction false} DiagonalRecipUndoes(a: Grid, i: nat)
    requires IsMatrix(a) && |a| <= Cols(a) && NonzeroDiagonal(a)
    ensures DiagonalRecipFrom(a, i) * DiagonalProductFrom(a, i) == 1.0
    decreases |a| - i
  {
    if i < |a| {
      DiagonalRecipUndoes(a, i + 1);
      var d := a[i][i];
      assert Recip(d) * d == 1.0;
      InversePairs(DiagonalRecipFrom(a, i), DiagonalProductFrom(a, i),
        Recip(d), DiagonalRecipFrom(a, i + 1), d, DiagonalProductFrom(a, i + 1));
    }
  }

  /** The scale recorded at pivot i contributes the pivot's reciprocal. */
  lemma PivotScaleFactor(a: Grid, i: nat)
    requires IsMatrix(a) && i < |a| <= Cols(a) && NonzeroDiagonal(a)
    ensures TraceFactor(PivotScale(a, i)) == Recip(a[i][i])
  {
    if a[i][i] != 1.0 {
      assert PivotScale(a, i)[1..] == [];
    }
  }

  /** A suffix's product is its first entry times the rest's. */
  lemma ProductOfSuffix(s: seq<real>, i: nat)
    requires i < |s|
    ensures ProductOf(s[i..]) == s[i] * ProductOf(s[i + 1..])
  {
    assert s[i..][1..] == s[i + 1..];
  }

  /** x = p f and y = d t multiply to 1 when p, d and f, t are reciprocal pairs. */
  lemma InversePairs(x: real, y: real, p: real, f: real, d: real, t: real)
    requires x == p * f && y == d * t
    requires p * d == 1.0 && f * t == 1.0
    ensures x * y == 1.0
  {
    assert (p * f) * (d * t) == (p * d) * (f * t);
  }

  /** Elimination below a pivot whose column is already clear records nothing. */
  lemma {:induction false} EliminateBelowClear(st: State, i: nat, ri: nat)
    requires IsMatrix(st.m) && i < Cols(st.m) && i < ri <= |st.m|
    requires forall k | ri <= k < |st.m| :: st.m[k][i] == 0.0
    ensures EliminateBelow(st, i, ri) == st
    decreases |st.m| - ri
  {
    if ri < |st.m| {
      EliminateBelowClear(st, i, ri + 1);
    }
  }

  /** One forward step on a diagonal matrix: pivot i is in place, so it is only scaled to 1. */
  lemma DiagonalStep(a: Grid, st: State, i: nat)
    requires IsMatrix(a) && |a| == Cols(a) && NonzeroDiagonal(a) && i < |a|
    requires IsMatrix(st.m) && |st.m| == |a| && Cols(st.m) == |a| && IsDiagonal(st.m)
    requires forall k | i <= k < |a| :: st.m[k][k] == a[k][k]
    ensures ForwardStep(st, i, FromTop) == Ok(ScaleToOne(st, i))
    ensures IsDiagonal(ScaleToOne(st, i).m)
    ensures ScaleToOne(st, i).moves == st.moves + PivotScale(a, i)
  {
    assert PivotRow(st.m, i, FromTop) == Some(i);
    assert SwapInto(st, i, i) == st;
    var scaled := ScaleToOne(st, i);
    EliminateBelowClear(scaled, i, i + 1);
  }

  /**
   * On a square diagonal matrix without zero diagonal entries, the forward
   * pass only scales each pivot to 1 and ends in a reduced matrix.
   */
  lemma {:induction false} ForwardOnDiagonal(a: Grid, st: State, i: nat)
    requires IsMatrix(a) && |a| == Cols(a) && NonzeroDiagonal(a) && i <= |a|
    requires IsMatrix(st.m) && |st.m| == |a| && Cols(st.m) == |a| && IsDiagonal(st.m)
    requires forall k | 0 <= k < i :: st.m[k][k] == 1.0
    requires forall k | i <= k < |a| :: st.m[k][k] == a[k][k]
    ensures ForwardFrom(st, i, FromTop).Ok?
    ensures ForwardFrom(st, i, FromTop).value.moves == st.moves + DiagonalScales(a, i)
    ensures IsReducedEchelonForm(ForwardFrom(st, i, FromTop).value.m)
    decreases |a| - i, 1
  {
    if i == |a| {
      DiagonalDone(a, st);
    } else {
      ForwardOnDiagonalStep(a, st, i);
    }
  }

  /** The inductive step of ForwardOnDiagonal: scale pivot i, then the rest. */
  lemma {:induction false} ForwardOnDiagonalStep(a: Grid, st: State, i: nat)
    requires IsMatrix(a) && |a| == Cols(a) && NonzeroDiagonal(a) && i < |a|
    requires IsMatrix(st.m) && |st.m| == |a| && Cols(st.m) == |a| && IsDiagonal(st.m)
    requires forall k | 0 <= k < i :: st.m[k][k] == 1.0
    requires forall k | i <= k < |a| :: st.m[k][k] == a[k][k]
    ensures ForwardFrom(st, i, FromTop).Ok?
    ensures ForwardFrom(st, i, FromTop).value.moves == st.moves + DiagonalScales(a, i)
    ensures IsReducedEchelonForm(ForwardFrom(st, i, FromTop).value.m)
    decreases |a| - i, 0
  {
    DiagonalAdvance(a, st, i);
    var next := ForwardStep(st, i, FromTop).value;
    ForwardFromStep(st, i, FromTop);
    ForwardOnDiagonal(a, next, i + 1);
    DiagonalMoves(a, i, st.moves, next.moves);
  }

  /** Recording pivot i's scale and then the scales from i + 1 on records the scales from i on. */
  lemma DiagonalMoves(a: Grid, i: nat, before: seq<Move>, after: seq<Move>)
    requires IsMatrix(a) && i < |a| <= Cols(a) && NonzeroDiagonal(a)
    requires after == before + PivotScale(a, i)
    ensures after + DiagonalScales(a, i + 1) == before + DiagonalScales(a, i)
  {
    assert DiagonalScales(a, i) == PivotScale(a, i) + DiagonalScales(a, i + 1);
    assert before + PivotScale(a, i) + DiagonalScales(a, i + 1) == before + (PivotScale(a, i) + DiagonalScales(a, i + 1));
  }

  /** With every pivot scaled to 1, the diagonal matrix is reduced and the pass is over. */
  lemma DiagonalDone(a: Grid, st: State)
    requires IsMatrix(a) && |a| == Cols(a) && NonzeroDiagonal(a)
    requires IsMatrix(st.m) && |st.m| == |a| && Cols(st.m) == |a| && IsDiagonal(st.m)
    requires forall k | 0 <= k < |a| :: st.m[k][k] == 1.0
    ensures ForwardFrom(st, |a|, FromTop) == Ok(st)
    ensures st.moves + DiagonalScales(a, |a|) == st.moves
    ensures IsReducedEchelonForm(st.m)
  {
    assert st.moves + [] == st.moves;
    assert IsReducedEchelonForm(st.m) by {
      forall k, j | 0 <= k < |st.m| && 0 <= j < |st.m[k]| && k == j ensures st.m[k][j] == 1.0 {
      }
    }
  }

  /** Step i on a diagonal matrix leaves a state that meets ForwardOnDiagonal's requirements at i + 1. */
  lemma DiagonalAdvance(a: Grid, st: State, i: nat)
    requires IsMatrix(a) && |a| == Cols(a) && NonzeroDiagonal(a) && i < |a|
    requires IsMatrix(st.m) && |st.m| == |a| && Cols(st.m) == |a| && IsDiagonal(st.m)
    requires forall k | 0 <= k < i :: st.m[k][k] == 1.0
    requires forall k | i <= k < |a| :: st.m[k][k] == a[k][k]
    ensures ForwardStep(st, i, FromTop).Ok?
    ensures IsMatrix(ForwardStep(st, i, FromTop).value.m) && IsDiagonal(ForwardStep(st, i, FromTop).value.m)
    ensures |ForwardStep(st, i, FromTop).value.m| == |a| && Cols(ForwardStep(st, i, FromTop).value.m) == |a|
    ensures forall k | 0 <= k < i + 1 :: ForwardStep(st, i, FromTop).value.m[k][k] == 1.0
    ensures forall k | i + 1 <= k < |a| :: ForwardStep(st, i, FromTop).value.m[k][k] == a[k][k]
    ensures ForwardStep(st, i, FromTop).value.moves == st.moves + PivotScale(a, i)
  {
    DiagonalStep(a, st, i);
    var scaled := ScaleToOne(st, i);
    forall k | 0 <= k < |a| && k != i
      ensures scaled.m[k][k] == st.m[k][k]
    {
      assert scaled.m[k] == st.m[k];
    }
  }

  lemma DiagonalNotEchelon(a: Grid)
    requires IsMatrix(a) && |a| == Cols(a) && IsDiagonal(a) && NonzeroDiagonal(a) && !IsReducedEchelonForm(a)
    ensures !IsEchelonForm(a) && !HasZeroRow(a) && DiagonalTrace(a) != []
  {
    var k :| 0 <= k < |a| && a[k][k] != 1.0;
    DiagonalScalesNonempty(a, 0, k);
    NonzeroDiagonalNoZeroRow(a);
  }

  lemma {:induction false} DiagonalScalesNonempty(a: Grid, i: nat, k: nat)
    requires IsMatrix(a) && |a| <= Cols(a) && NonzeroDiagonal(a) && i <= k < |a| && a[k][k] != 1.0
    ensures DiagonalScales(a, i) != []
    decreases k - i
  {
    if a[i][i] == 1.0 {
      DiagonalScalesNonempty(a, i + 1, k);
    }
  }

  lemma {:induction false} DiagonalScalesOfReduced(a: Grid, i: nat)
    requires IsMatrix(a) && |a| <= Cols(a) && NonzeroDiagonal(a) && IsReducedEchelonForm(a)
    ensures DiagonalScales(a, i) == []
    decreases |a| - i
  {
    if i < |a| {
      DiagonalScalesOfReduced(a, i + 1);
    }
  }

  /**
   * The reduction of a square diagonal matrix without zero diagonal
   * entries that is not yet reduced: the forward pass scales every pivot to
   * 1 and the result is already reduced, so it is returned as it is.
   */
  lemma DiagonalReduction(a: Grid)
    requires IsMatrix(a) && |a| == Cols(a) && IsDiagonal(a) && NonzeroDiagonal(a) && !IsReducedEchelonForm(a)
    ensures ReduceToReducedEchelon(a).Ok?
    ensures ReduceToReducedEchelon(a).value.trace == DiagonalTrace(a)
    ensures !HasZeroRow(ReduceToReducedEchelon(a).value.matrix)
  {
    DiagonalNotEchelon(a);
    ForwardOnDiagonal(a, State(a, []), 0);
    var st := ForwardFrom(State(a, []), 0, FromTop).value;
    if HasZeroRow(st.m) {
      ZeroRowNotEchelon(st.m);
    }
    assert [] + DiagonalScales(a, 0) == DiagonalScales(a, 0);
    assert ReduceToEchelon(a) == Classify(st.m, st.moves);
  }

  /** Beyond 2x2, a reduction without a zero row gives the reciprocal of its trace factor. */
  lemma DeterminantFromReduction(a: Grid)
    requires IsMatrix(a) && |a| == Cols(a) != 2 && ReduceToReducedEchelon(a).Ok?
    requires !HasZeroRow(ReduceToReducedEchelon(a).value.matrix)
    ensures TraceFactor(ReduceToReducedEchelon(a).value.trace) != 0.0
    ensures DeterminantOf(a) == Ok(1.0 / TraceFactor(ReduceToReducedEchelon(a).value.trace))
  {
    TraceFactorNonzero(ReduceToReducedEchelon(a).value.trace);
  }

  lemma NonzeroDiagonalNoZeroRow(a: Grid)
    requires IsMatrix(a) && |a| <= Cols(a) && NonzeroDiagonal(a)
    ensures !HasZeroRow(a)
  {
  }

  lemma DiagonalDeterminantByTrace(a: Grid)
    requires IsMatrix(a) && |a| == Cols(a) != 2 && IsDiagonal(a) && NonzeroDiagonal(a)
    ensures TraceFactor(DiagonalTrace(a)) != 0.0
    ensures DeterminantOf(a) == Ok(1.0 / TraceFactor(DiagonalTrace(a)))
  {
    if IsReducedEchelonForm(a) {
      DiagonalScalesOfReduced(a, 0);
      NonzeroDiagonalNoZeroRow(a);
      assert ReduceToReducedEchelon(a) == Ok(ReductionResult(a, [], REDUCED_ROW_ECHELON));
    } else {
      DiagonalReduction(a);
    }
    DeterminantFromReduction(a);
  }

  /** The determinant of a square diagonal matrix is the product of its diagonal. */
  lemma DiagonalDeterminant(a: Grid)
    requires IsMatrix(a) && |a| == Cols(a) && IsDiagonal(a)
    ensures DeterminantOf(a) == Ok(ProductOf(DiagonalEntries(a)))
  {
    if !NonzeroDiagonal(a) {
      DiagonalDeterminantWithZero(a);
    } else if |a| == 2 {
      DiagonalDeterminantTwo(a);
    } else {
      DiagonalDeterminantBeyondTwo(a);
    }
  }

  lemma DiagonalDeterminantTwo(a: Grid)
    requires IsMatrix(a) && |a| == Cols(a) == 2 && IsDiagonal(a)
    ensures DeterminantOf(a) == Ok(ProductOf(DiagonalEntries(a)))
  {
    DeterminantTwo(a);
    assert a[0][1] == 0.0;
    DiagonalTwoArithmetic(a[0][0], a[0][1], a[1][0], a[1][1]);
    DiagonalEntriesTwo(a);
  }

  lemma DiagonalEntriesTwo(a: Grid)
    requires IsMatrix(a) && |a| == Cols(a) == 2
    ensures ProductOf(DiagonalEntries(a)) == a[0][0] * a[1][1]
  {
    var d := DiagonalEntries(a);
    ProductOfTwo(d);
    assert d[0] == a[0][0] && d[1] == a[1][1];
  }

  lemma DeterminantTwo(a: Grid)
    requires IsMatrix(a) && |a| == Cols(a) == 2
    ensures DeterminantOf(a) == Ok(a[0][0] * a[1][1] - a[0][1] * a[1][0])
  {}

  lemma DiagonalTwoArithmetic(x: real, b: real, c: real, y: real)
    requires b == 0.0
    ensures x * y - b * c == x * y
  {}

  lemma ProductOfTwo(s: seq<real>)
    requires |s| == 2
    ensures ProductOf(s) == s[0] * s[1]
  {
    assert s[1..][1..] == [];
    assert ProductOf(s[1..]) == s[1] * 1.0;
  }

  /** The product of two reals, named so that a scaling step stays one term in the proofs that use it. */
  function Mul(a: real, b: real): real {
    a * b
  }

  /** A product equal to 1 makes each factor the other's reciprocal. */
  lemma Reciprocal(f: real, p: real)
    requires Mul(f, p) == 1.0
    ensures f != 0.0 && 1.0 / f == p
  {}

  lemma DiagonalProductFactor(a: Grid)
    requires IsMatrix(a) && |a| <= Cols(a) && NonzeroDiagonal(a)
    ensures TraceFactor(DiagonalTrace(a)) * ProductOf(DiagonalEntries(a)) == 1.0
  {
    DiagonalScalesFactor(a, 0);
    DiagonalRecipUndoes(a, 0);
    DiagonalProductIsProduct(a, 0);
    assert DiagonalEntries(a)[0..] == DiagonalEntries(a);
  }

  lemma DiagonalDeterminantBeyondTwo(a: Grid)
    requires IsMatrix(a) && |a| == Cols(a) != 2 && IsDiagonal(a) && NonzeroDiagonal(a)
    ensures DeterminantOf(a) == Ok(ProductOf(DiagonalEntries(a)))
  {
    DiagonalProductFactor(a);
    Reciprocal(TraceFactor(DiagonalTrace(a)), ProductOf(DiagonalEntries(a)));
    DiagonalDeterminantByTrace(a);
  }

  lemma DiagonalDeterminantWithZero(a: Grid)
    requires IsMatrix(a) && |a| == Cols(a) && IsDiagonal(a) && !NonzeroDiagonal(a)
    ensures DeterminantOf(a) == Ok(0.0) && ProductOf(DiagonalEntries(a)) == 0.0
  {
    var k :| 0 <= k < |a| && a[k][k] == 0.0;
    assert IsZeroRow(a[k]);
    ZeroRowDeterminant(a);
    ProductOfZero(DiagonalEntries(a), k);
  }

  // ------------------------------------------------------------------
  // The library's 2x2 inverse example, move by move
  // ------------------------------------------------------------------

  const InverseExample: Grid := [[-1.0, 2.0], [-1.0, 1.0]]

  /** The trace of reducing InverseExample: scale row 0, clear below, scale row 1, clear above. */
  const InverseExampleTrace: seq<Move> := [Scale(-1.0, 0), Add(1.0, 0, 1), Scale(-1.0, 1), Add(2.0, 1, 0)]

  lemma InverseExampleStep0()
    ensures ForwardStep(State(InverseExample, []), 0, FromTop)
      == Ok(State([[1.0, -2.0], [0.0, -1.0]], [Scale(-1.0, 0), Add(1.0, 0, 1)]))
  {
    var st := State(InverseExample, []);
    assert PivotRow(st.m, 0, FromTop) == Some(0);
    assert SwapInto(st, 0, 0) == st;
    var scaled := Record(st, Scale(-1.0, 0));
    assert scaled.m[0] == [1.0, -2.0] by {
      assert |scaled.m[0]| == 2;
    }
    assert scaled.m == [[1.0, -2.0], [-1.0, 1.0]];
    assert ScaleToOne(st, 0) == scaled;
    var next := Record(scaled, Add(1.0, 0, 1));
    assert next.m[1] == [0.0, -1.0] by {
      assert |next.m[1]| == 2;
    }
    assert next.m == [[1.0, -2.0], [0.0, -1.0]];
    assert EliminateBelow(scaled, 0, 1) == EliminateBelow(next, 0, 2) == next;
    assert next.moves == [Scale(-1.0, 0), Add(1.0, 0, 1)];
  }

  lemma InverseExampleStep1()
    ensures ForwardStep(State([[1.0, -2.0], [0.0, -1.0]], [Scale(-1.0, 0), Add(1.0, 0, 1)]), 1, FromTop)
      == Ok(State([[1.0, -2.0], [0.0, 1.0]], [Scale(-1.0, 0), Add(1.0, 0, 1), Scale(-1.0, 1)]))
  {
    var st := State([[1.0, -2.0], [0.0, -1.0]], [Scale(-1.0, 0), Add(1.0, 0, 1)]);
    assert PivotRow(st.m, 1, FromTop) == Some(1);
    assert SwapInto(st, 1, 1) == st;
    var scaled := Record(st, Scale(-1.0, 1));
    assert scaled.m[1] == [0.0, 1.0] by {
      assert |scaled.m[1]| == 2;
    }
    assert scaled.m == [[1.0, -2.0], [0.0, 1.0]];
    assert ScaleToOne(st, 1) == scaled;
    assert EliminateBelow(scaled, 1, 2) == scaled;
    assert scaled.moves == [Scale(-1.0, 0), Add(1.0, 0, 1), Scale(-1.0, 1)];
  }

  /** The forward pass stops in row echelon form, not yet reduced. */
  lemma InverseExampleEchelon()
    ensures ReduceToEchelon(InverseExample)
      == Ok(ReductionResult([[1.0, -2.0], [0.0, 1.0]], [Scale(-1.0, 0), Add(1.0, 0, 1), Scale(-1.0, 1)], ROW_ECHELON))
  {
    InverseExampleShapes();
    InverseExampleForward();
  }

  /** The example is neither reduced nor in echelon form; its forward result is in echelon form only. */
  lemma InverseExampleShapes()
    ensures !HasZeroRow(InverseExample) && !IsEchelonForm(InverseExample) && !IsReducedEchelonForm(InverseExample)
    ensures var e: Grid := [[1.0, -2.0], [0.0, 1.0]];
      !HasZeroRow(e) && IsEchelonForm(e) && !IsReducedEchelonForm(e)
  {
    var a := InverseExample;
    assert a[0][0] != 0.0 && a[1][0] != 0.0;
    assert !IsZeroRow(a[0]) && !IsZeroRow(a[1]);
    assert a[0][0] != 1.0;
    var e: Grid := [[1.0, -2.0], [0.0, 1.0]];
    assert e[0][0] != 0.0 && e[1][1] != 0.0;
    assert !IsZeroRow(e[0]) && !IsZeroRow(e[1]);
    assert e[0][1] != 0.0;
  }

  lemma InverseExampleForward()
    ensures ForwardFrom(State(InverseExample, []), 0, FromTop)
      == Ok(State([[1.0, -2.0], [0.0, 1.0]], [Scale(-1.0, 0), Add(1.0, 0, 1), Scale(-1.0, 1)]))
  {
    var s1 := State([[1.0, -2.0], [0.0, -1.0]], [Scale(-1.0, 0), Add(1.0, 0, 1)]);
    var s2 := State([[1.0, -2.0], [0.0, 1.0]], [Scale(-1.0, 0), Add(1.0, 0, 1), Scale(-1.0, 1)]);
    InverseExampleStep0();
    InverseExampleStep1();
    assert ForwardFrom(s2, 2, FromTop) == Ok(s2);
    assert ForwardFrom(s1, 1, FromTop) == ForwardFrom(s2, 2, FromTop);
    assert ForwardFrom(State(InverseExample, []), 0, FromTop) == ForwardFrom(s1, 1, FromTop);
  }

  /** The backward pass clears the -2 above the second pivot. */
  lemma InverseExampleBackward()
    ensures BackwardFrom(State([[1.0, -2.0], [0.0, 1.0]], [Scale(-1.0, 0), Add(1.0, 0, 1), Scale(-1.0, 1)]), 0)
      == Ok(State(Identity(2, 2), InverseExampleTrace))
  {
    var st := State([[1.0, -2.0], [0.0, 1.0]], [Scale(-1.0, 0), Add(1.0, 0, 1), Scale(-1.0, 1)]);
    var next := Record(st, Add(2.0, 1, 0));
    assert next.m[0] == [1.0, 0.0] by {
      assert |next.m[0]| == 2;
    }
    IdentityTwo();
    assert next.m == Identity(2, 2);
    assert BackwardRow(st, 0, 0) == BackwardRow(st, 0, 1) == BackwardRow(next, 0, 2) == Ok(next);
    assert BackwardRow(next, 1, 0) == BackwardRow(next, 1, 1) == BackwardRow(next, 1, 2) == Ok(next);
    assert next.moves == InverseExampleTrace;
  }

  lemma InverseExampleReduced()
    ensures ReduceToReducedEchelon(InverseExample)
      == Ok(ReductionResult(Identity(2, 2), InverseExampleTrace, REDUCED_ROW_ECHELON))
  {
    InverseExampleShapes();
    InverseExampleEchelon();
    InverseExampleBackward();
    IdentityIsReduced(2, 2);
  }

  lemma IdentityTwo()
    ensures Identity(2, 2) == [[1.0, 0.0], [0.0, 1.0]]
  {
    var id := Identity(2, 2);
    assert id[0] == [1.0, 0.0] && id[1] == [0.0, 1.0];
  }

  /** The trace replayed on the identity, one move at a time. */
  lemma InverseExampleReplay()
    ensures Replay(Identity(2, 2), InverseExampleTrace) == [[1.0, -2.0], [1.0, -1.0]]
  {
    var t := InverseExampleTrace;
    var g0 := Identity(2, 2);
    IdentityTwo();
    var g1 := ApplyMove(g0, t[0]);
    assert g1 == [[-1.0, 0.0], [0.0, 1.0]] by {
      assert |g1[0]| == 2;
      assert g1[0] == [-1.0, 0.0];
    }
    var g2 := ApplyMove(g1, t[1]);
    assert g2 == [[-1.0, 0.0], [-1.0, 1.0]] by {
      assert |g2[1]| == 2;
      assert g2[1] == [-1.0, 1.0];
    }
    var g3 := ApplyMove(g2, t[2]);
    assert g3 == [[-1.0, 0.0], [1.0, -1.0]] by {
      assert |g3[1]| == 2;
      assert g3[1] == [1.0, -1.0];
    }
    var g4 := ApplyMove(g3, t[3]);
    assert g4 == [[1.0, -2.0], [1.0, -1.0]] by {
      assert |g4[0]| == 2;
      assert g4[0] == [1.0, -2.0];
    }
    assert t[..1][..0] == [] && t[..2][..1] == t[..1] && t[..3][..2] == t[..2] && t[..3] == t[..|t| - 1];
    assert Replay(g0, t[..1]) == g1;
    assert Replay(g0, t[..2]) == g2;
    assert Replay(g0, t[..3]) == g3;
  }

  /**
   * The library's inverse example: [[-1,2],[-1,1]] has determinant 1 and
   * inverse [[1,-2],[1,-1]], and the matrix times its inverse is the identity.
   */
  lemma InverseExampleInverse()
    ensures IsMatrix(InverseExample) && DeterminantOf(InverseExample) == Ok(1.0)
    ensures InverseOf(InverseExample) == Ok(Some([[1.0, -2.0], [1.0, -1.0]]))
    ensures TimesSpec(InverseExample, [[1.0, -2.0], [1.0, -1.0]]) == Ok(Identity(2, 2))
  {
    DeterminantTwo(InverseExample);
    InverseExampleReduced();
    InverseExampleReplay();
    InverseExampleProduct();
  }

  lemma InverseExampleProduct()
    ensures TimesSpec(InverseExample, [[1.0, -2.0], [1.0, -1.0]]) == Ok(Identity(2, 2))
  {
    var a := InverseExample;
    var b: Grid := [[1.0, -2.0], [1.0, -1.0]];
    TimesSquare(a, b);
    var p := Product(a, b);
    var id := Identity(2, 2);
    forall i | 0 <= i < 2 ensures p[i] == id[i] {
      forall j | 0 <= j < 2 ensures p[i][j] == id[i][j] {
        assert p[i][j] == DotColumn(a[i], b, j, 2);
      }
    }
    assert p == id;
  }
}
