# LinearAlgebraProbability in Dafny

This project models the core of the LinearAlgebraProbability library:

- **The `GaussJordan` reducer.** It takes a matrix to row-echelon form and to reduced row-echelon form. It records every elementary row operation (a `Move`: `Scale`, `Swap` or `Add`) in a trace. It classifies the result as `ROW_ECHELON`, `REDUCED_ROW_ECHELON` or `PARAMETRIC`.
- **The `Matrixf` matrix type.** This covers construction, elementwise arithmetic, the three row operations, `times`, `adjoin`, `equals` and the shape predicates. It also covers the two memo caches for the echelon and reduced forms, and the trace-based `determinant` and `inverse`. Both the current `src/main/java/Matrixf.kt` and the legacy `src/Matrixf.kt` are modelled.
- **The `Vectorf` vector type.** This covers both copies.
- **The `Probability` combinatorics helpers.** These are `factorial`, `binomial`/`choose` and the two `fac` extensions.

Modelling choices:

- **Entries are `real`.** The library computes with 32-bit floats. The model abstracts rounding away and keeps the library's exact comparisons (`== 0f`, `!= 1f`) as real equalities.
- **A matrix is a value.** It is a `Grid = seq<seq<real>>` with at least one row, because the library reads `rows.first()`, and rows of equal length. Every library operation returns a new matrix.
- **Exceptions become errors.** Every exception the library throws becomes `Err(f)` of a `Result`, with `f` a `Failure` naming the exception kind.
- **Two forms for the reducer.** The reducer's loops are written twice:
  - as tail-recursive specification functions over a `State(m, moves)`: `ForwardFrom`, `EliminateBelow`, `BackwardFrom` and `BackwardRow`;
  - as imperative methods with `while` loops (`ForwardPass`, `EliminateColumn`, `BackwardPass`, `ClearRow`, …), each proved equal to its function.
- **Properties are proved about the functions.** Examples:
  - the trace replays to the result;
  - the trace applied to the identity gives an inverse on both sides;
  - the classification is correct;
  - the determinant equals the diagonal product on diagonal matrices.
- **An independent determinant.** At 2×2 and 3×3 the trace-based determinant is compared with the cofactor expansion (module `Cofactors`): a swap negates the expansion, a scale multiplies it by its scalar and an add keeps it, so replaying the reduction trace multiplies it by the same factor the library divides by.
- **The pivot search is a parameter.** It is `FromTop` (what the library does: the first nonzero entry of the column in the whole matrix) or `FromPivot` (rows from the pivot down). This is so the library's behaviour and the evidently intended one can be compared; see Findings.
- **`Probability` wraps explicitly.** It computes in Kotlin `Long`, and the model writes out the 64-bit wrap-around (`WrapLong`) and truncating division (`LongDiv`).

The pivot search (`src/GaussJordan.kt:46-52`) looks for a nonzero entry in the whole column, starting at row 0, so it can pick a row above the pivot and swap it back down past finished pivots. The code's own check after the loop (`src/GaussJordan.kt:76-79`) raises `Reduction failed.` when the result is not in echelon form, which is what such a swap produces; the search from the pivot down is what that check expects. The model follows the code.

## Model

| member | source | states |
|---|---|---|
| Matrices.From | src/main/java/Matrixf.kt:32-36 | fails exactly when the row count is not positive or the values run out; otherwise m rows of n entries that, laid end to end, are the first m·n values |
| Matrices.IdentityOf | src/main/java/Matrixf.kt:57-59 | fails with `NoSuchElement` exactly when n ≤ 0 (a matrix without rows cannot read `rows.first()`, line 15); otherwise n rows of max(m, 0) entries, 1 on the diagonal and 0 elsewhere |
| Matrices.Map | src/main/java/Matrixf.kt:77-78 | same shape, every entry is f of the entry in the same place |
| Matrices.Map2 | src/main/java/Matrixf.kt:85-86 | fails exactly when the second matrix is too small to index; otherwise entry (i,j) is f of the two entries at (i,j) |
| Matrices.MinusUndoesPlus | src/main/java/Matrixf.kt:88-92 | `(a + b) - b == a` whenever `a + b` is defined |
| Matrices.DivUndoesTimes | src/main/java/Matrixf.kt:94-102 | dividing by a nonzero scalar undoes multiplying by it |
| Matrices.NegateTwice | src/main/java/Matrixf.kt:104 | unary minus is its own inverse |
| Matrices.SwapRows | src/main/java/Matrixf.kt:125-131 | rows r1 and r2 exchanged, every other row unchanged |
| Matrices.SwapRowsTwice | src/main/java/Matrixf.kt:125-131 | swapping the same two rows twice gives the original matrix |
| Matrices.SwapRowsSelf | src/Matrixf.kt:121-127 | swapping a row with itself changes nothing (the legacy `swapRows`, the same text as the current one) |
| Matrices.ScaleRow | src/main/java/Matrixf.kt:133-139 | the chosen row multiplied entrywise by s, every other row unchanged |
| Matrices.ScaleAddRows | src/main/java/Matrixf.kt:141-147 | target row becomes s·source + target, every other row unchanged |
| Matrices.AddRows | src/main/java/Matrixf.kt:149 | target row becomes source + target, every other row unchanged |
| Matrices.Diagonal | src/main/java/Matrixf.kt:171-173 | min(m, n) entries, the k-th being entry (k,k) |
| Matrices.ReducedIsEchelon | src/main/java/Matrixf.kt:175-208 | a reduced echelon matrix is also echelon and diagonal |
| Matrices.TallEchelonHasZeroRow | src/Matrixf.kt:154-166 | an echelon matrix with more rows than columns has an all-zero row (the legacy `isEchelonForm`, the same text as the current one) |
| Matrices.SquareReducedIsIdentity | src/main/java/Matrixf.kt:196-208 | a square reduced echelon matrix is the identity |
| Matrices.IdentityIsReduced | src/main/java/MatrixfTest.kt:46-49 | every identity is reduced echelon, echelon and diagonal |
| Matrices.ScaledIdentityNotReduced | src/main/java/MatrixfTest.kt:52-57 | twice the identity is not reduced echelon |
| Matrices.ZeroRowNotEchelon | src/main/java/Matrixf.kt:175-187 | a matrix with no more rows than columns and an all-zero row is neither echelon nor reduced |
| Matrices.Product | src/main/java/Matrixf.kt:106-117 | the mathematical product: row i is row i of a times b |
| Matrices.IdentityTimes | src/main/java/Matrixf.kt:106-117 | the identity is a left unit of the product |
| Matrices.IdentityTimesIdentity | src/main/java/MatrixfTest.kt:36-38 | identity times identity is the identity |
| Matrices.SwapRowsProduct | src/main/java/Matrixf.kt:125-131 | swapping rows of p then multiplying equals multiplying then swapping |
| Matrices.ScaleRowProduct | src/main/java/Matrixf.kt:133-139 | scaling a row commutes with right multiplication |
| Matrices.ScaleAddRowsProduct | src/main/java/Matrixf.kt:141-147 | scale-and-add commutes with right multiplication |
| Matrices.Times | src/main/java/Matrixf.kt:106-117 | the in-place triple loop yields what the library yields: `NoSuchElement` when a has no columns (its output `identity(0, …)` has no first row), the index error when the writes or reads leave the arrays, otherwise identity of a.n×b.m with rows i < a.m overwritten by dot products |
| Matrices.TimesSquare | src/main/java/Matrixf.kt:106-117 | for square operands of one size `times` is the mathematical product |
| Matrices.Adjoin | src/main/java/Matrixf.kt:241-242 | rows zipped: as many rows as the shorter matrix, row i is a's row i followed by b's |
| Matrices.AdjoinVector | src/main/java/Matrixf.kt:244-247 | fails exactly on an empty vector; otherwise row i gains v[i] as a last column |
| Matrices.Equals | src/main/java/Matrixf.kt:318-327 | true exactly when the two matrices are equal |
| GaussJordan.ApplyMove | src/GaussJordan.kt:14-20 | applying a move keeps the matrix shape |
| GaussJordan.UndoMove | src/GaussJordan.kt:6-20 | every swap, every nonzero scale and every add between distinct rows is undone by its inverse move |
| GaussJordan.UndoAll | src/GaussJordan.kt:6-20 | for a trace of undoable moves, the undo of each move in reverse order: as long as the trace and fitting the same rows |
| GaussJordan.ReplayUndoAll | src/GaussJordan.kt:14-20 | replaying a trace and then its undo trace gives the matrix back |
| GaussJordan.Replay | src/GaussJordan.kt:14-20 | replaying a trace keeps the shape |
| GaussJordan.ReplayAppend | src/GaussJordan.kt:14-20 | replaying t + u is replaying t then u |
| GaussJordan.ReplayIsLeftProduct | src/GaussJordan.kt:14-20 | replaying a trace on p·x equals replaying it on p then multiplying by x |
| GaussJordan.ReplayOnIdentity | src/main/java/Matrixf.kt:236 | replaying a trace on x equals (trace replayed on the identity)·x, so the replayed identity is the matrix of the trace |
| GaussJordan.Record | src/GaussJordan.kt:54-66 | a move is applied and appended to the trace |
| GaussJordan.RecordTracks | src/GaussJordan.kt:54-66 | recording keeps "the trace replayed on the input gives the current matrix" |
| GaussJordan.FirstNonzeroRow | src/GaussJordan.kt:47-50 | the lowest row index from `from` with a nonzero entry in the column, or None exactly when the column is zero there |
| GaussJordan.PivotRow | src/GaussJordan.kt:43-52 | the diagonal row when its entry is nonzero, else the first nonzero row of the search range; None exactly when the range is all zero |
| GaussJordan.SwapInto | src/GaussJordan.kt:53-56 | rows i and ti exchanged, only forward moves appended |
| GaussJordan.ScaleToOne | src/GaussJordan.kt:57-61 | the pivot becomes 1, the zero pattern of row i is kept, other rows are unchanged |
| GaussJordan.EliminateBelow | src/GaussJordan.kt:62-67 | rows above ri untouched; with pivot 1 every entry below it in the column becomes 0; columns where the pivot row is 0 are unchanged |
| GaussJordan.PivotStep | src/GaussJordan.kt:53-67 | after swap, scale and elimination the pivot is 1 and everything below it is 0 |
| GaussJordan.ForwardStep | src/GaussJordan.kt:42-68 | one column of the forward loop: index error exactly when i is past the last column, all-zero-column error exactly when the search range is zero, otherwise pivot 1 with zeros below |
| GaussJordan.ForwardFrom | src/GaussJordan.kt:42-68 | the forward loop only fails with those two errors; on success the trace extends the input trace by forward moves, and a matrix with more rows than columns never gets through |
| GaussJordan.ForwardFromTracks | src/GaussJordan.kt:40-68 | the forward loop keeps "the trace replayed on the input gives the current matrix" |
| GaussJordan.Classify | src/GaussJordan.kt:70-79 | fails with `ReductionFailed` exactly when the matrix has no zero row and is not echelon; otherwise the type is PARAMETRIC iff a zero row, else REDUCED iff reduced |
| GaussJordan.ReduceToEchelon | src/GaussJordan.kt:30-80 | fails only with the three library exceptions; success keeps the shape, the trace holds only forward moves, and the result type agrees with the matrix |
| GaussJordan.EchelonResult | src/GaussJordan.kt:30-80 | the trace replays the input to the result; a non-PARAMETRIC result is echelon without zero rows; a matrix without zero rows that reduces has no more rows than columns |
| GaussJordan.EchelonFastPaths | src/GaussJordan.kt:31-39 | a zero row, an already reduced matrix and an already echelon matrix are returned as they are with an empty trace and the matching type |
| GaussJordan.BackwardRow | src/GaussJordan.kt:96-103 | clearing one row only fails with the index error and appends only well-formed Add moves into that row |
| GaussJordan.BackwardFrom | src/GaussJordan.kt:93-104 | the backward loop only fails with the index error and appends only well-formed Add moves |
| GaussJordan.BackwardFromTracks | src/GaussJordan.kt:93-104 | the backward loop keeps the trace–matrix correspondence |
| GaussJordan.ReduceToReducedEchelon | src/GaussJordan.kt:82-109 | fails only with the three library exceptions; success keeps the shape and its trace is forward moves followed by Adds |
| GaussJordan.ReducedEchelonClassified | src/GaussJordan.kt:70-79 | a forward result that is already reduced is classified REDUCED_ROW_ECHELON |
| GaussJordan.BackwardPathResult | src/GaussJordan.kt:89-108 | the backward loop extends the echelon trace, keeps the trace–matrix correspondence, and a reduced outcome has no zero rows |
| GaussJordan.ReducedTrace | src/GaussJordan.kt:82-109 | the reduced trace replays the input to the result and extends the echelon trace |
| GaussJordan.ReducedResult | src/GaussJordan.kt:82-109 | a matrix with a zero row comes back unchanged with an empty trace as PARAMETRIC, an already reduced one unchanged with an empty trace as REDUCED_ROW_ECHELON; PARAMETRIC exactly when the input has a zero row; otherwise the result is REDUCED_ROW_ECHELON, reduced, without zero rows, and the input has no more rows than columns |
| GaussJordan.ForwardStepFromPivot | src/GaussJordan.kt:42-68 | with the search from the pivot down, one step extends an echelon prefix by one column |
| GaussJordan.ForwardFromPivotIsEchelon | src/GaussJordan.kt:42-68 | with the search from the pivot down, a successful forward loop ends in echelon form |
| GaussJordan.CorrectedForwardClassifies | src/GaussJordan.kt:70-79 | with the search from the pivot down, classification never raises `Reduction failed` |
| GaussJordan.UpwardSwapExampleInvertible | src/GaussJordan.kt:46-52 | the example matrix has an inverse |
| GaussJordan.UpwardSwapForward | src/GaussJordan.kt:42-68 | the library's forward loop on the example swaps rows back above finished pivots |
| GaussJordan.UpwardSwapFails | src/GaussJordan.kt:30-80 | the library raises `Reduction failed` on this invertible matrix |
| GaussJordan.ForwardColumn | src/GaussJordan.kt:43-67 | one iteration of the forward loop equals ForwardStep |
| GaussJordan.EliminateEntry | src/GaussJordan.kt:63-66 | one iteration of the elimination loop advances EliminateBelow by one row |
| GaussJordan.EliminateColumn | src/GaussJordan.kt:62-67 | the elimination loop equals EliminateBelow |
| GaussJordan.ForwardPass | src/GaussJordan.kt:40-69 | the forward loop equals ForwardFrom |
| GaussJordan.ReduceMatrixToEchelon | src/GaussJordan.kt:30-80 | `reduceMatrixToEchelon` equals ReduceToEchelon |
| GaussJordan.ReduceFromEchelon | src/GaussJordan.kt:89-108 | past the fast paths, the reducer started from the echelon result (`matrix.echelonForm()`) equals ReduceToReducedEchelon |
| GaussJordan.ClearEntry | src/GaussJordan.kt:98-102 | one iteration of the row-clearing loop fails exactly when it would index a row past the last, otherwise it advances BackwardRow by one column |
| GaussJordan.ClearRow | src/GaussJordan.kt:96-103 | the row-clearing loop equals BackwardRow |
| GaussJordan.BackwardPass | src/GaussJordan.kt:93-104 | the backward loop equals BackwardFrom |
| GaussJordan.ReduceMatrixToReducedEchelonForm | src/GaussJordan.kt:82-109 | `reduceMatrixToReducedEchelonForm` equals ReduceToReducedEchelon |
| Determinants.TraceFactorAppend | src/main/java/Matrixf.kt:221-227 | the trace fold is multiplicative over concatenation |
| Determinants.TraceFactorNonzero | src/main/java/Matrixf.kt:221-227 | a trace of nonzero scales folds to a nonzero factor, so the final division is defined |
| Determinants.DeterminantOf | src/main/java/Matrixf.kt:210-228 | the non-square error exactly for non-square matrices; the closed form ad − bc for 2×2 |
| Determinants.DeterminantZeroIffZeroRow | src/main/java/Matrixf.kt:210-228 | beyond 2×2, the determinant is 0 exactly when the matrix has a zero row |
| Determinants.ZeroRowDeterminant | src/main/java/Matrixf.kt:210-239 | a square matrix with a zero row has determinant 0 and no inverse |
| Determinants.IdentityDeterminant | src/main/java/Matrixf.kt:210-239 | the identity has determinant 1 and is its own inverse |
| Determinants.DiagonalReduction | src/GaussJordan.kt:82-109 | a diagonal matrix with nonzero diagonal reduces by scale moves only, to a matrix without zero rows |
| Determinants.DiagonalDeterminant | src/main/java/Matrixf.kt:210-228 | the determinant of a diagonal matrix is the product of its diagonal |
| Determinants.InverseOf | src/main/java/Matrixf.kt:230-239 | errors exactly when the determinant errs or a nonzero-determinant reduction errs; no inverse when the determinant is 0; an inverse has the matrix's square shape |
| Determinants.InverseIsLeftInverse | src/main/java/Matrixf.kt:230-239 | a returned inverse times the matrix is the identity |
| Determinants.InverseIsRightInverse | src/main/java/Matrixf.kt:230-239 | the matrix times a returned inverse is the identity, both as the product and as `times` |
| Determinants.InverseExampleEchelon | src/main/java/MatrixfTest.kt:106-120 | the echelon reduction of [[-1,2],[-1,1]] and its trace |
| Determinants.InverseExampleReduced | src/main/java/MatrixfTest.kt:106-120 | the reduced reduction of [[-1,2],[-1,1]] is the identity with its trace |
| Determinants.InverseExampleInverse | src/main/java/MatrixfTest.kt:106-120 | [[-1,2],[-1,1]] has determinant 1 and inverse [[1,-2],[1,-1]], and their product is the identity |
| LegacyMatrix.DeterminantOf | src/Matrixf.kt:189-201 | the legacy determinant errs exactly when the reduction errs, and is 0 for a matrix with a zero row |
| LegacyMatrix.InverseOf | src/Matrixf.kt:203-212 | the legacy inverse errs exactly when the reduction errs, is absent when the determinant is 0, and has the transposed shape |
| LegacyMatrix.AgreesOnSquare | src/Matrixf.kt:189-212 | on square matrices other than 2×2 the legacy determinant and inverse equal the current ones |
| LegacyMatrix.NonSquareAccepted | src/Matrixf.kt:189-212 | the legacy versions give [[1,0]] determinant 1 and an inverse, where the current ones reject it as non-square |
| LegacyMatrix.SingularTwoByTwo | src/Matrixf.kt:189-201 | the legacy determinant of [[1,1],[1,1]] raises `Reduction failed`; the current one returns 0 |
| Cofactors.ChainProduct | src/main/java/Matrixf.kt:221-227 | a chain of values each a fixed factor times the one before ends at the product of the factors times the start |
| Cofactors.TraceFactorIsProduct | src/main/java/Matrixf.kt:221-227 | the trace fold is the product of the moves' factors (−1 per swap, s per scale, 1 per add) |
| Cofactors.ReplayScales | src/GaussJordan.kt:14-20 | for any determinant function that every move scales by its factor, replaying a trace scales it by the trace factor |
| Cofactors.Det3Move | src/GaussJordan.kt:14-20 | on 3×3 matrices a swap negates the cofactor expansion, a scale multiplies it by s, an add leaves it unchanged |
| Cofactors.Det3Replay | src/GaussJordan.kt:14-20 | replaying a well-formed trace multiplies the 3×3 cofactor expansion by the trace factor |
| Cofactors.DeterminantIsCofactorExpansion3 | src/main/java/Matrixf.kt:210-228 | on 3×3 matrices `determinant()` is defined exactly when the reduction succeeds, and then equals the cofactor expansion |
| Cofactors.Det2Move | src/GaussJordan.kt:14-20 | on 2×2 matrices a swap negates ad − bc, a scale multiplies it by s, an add leaves it unchanged |
| Cofactors.Det2Replay | src/GaussJordan.kt:14-20 | replaying a well-formed trace multiplies ad − bc by the trace factor |
| Cofactors.LegacyTwoByTwo | src/Matrixf.kt:189-201 | on 2×2 matrices a legacy determinant that does not raise is ad − bc, the current value |
| Cofactors.TwoByTwoReduces | src/GaussJordan.kt:82-109 | a 2×2 matrix with ad − bc ≠ 0 reduces to REDUCED_ROW_ECHELON |
| Cofactors.NonzeroDeterminantHasInverse | src/main/java/Matrixf.kt:230-239 | at every size, a defined nonzero determinant yields an inverse |
| ThreeByThreeExample.Reduced | src/main/java/MatrixfTest.kt:77-101 | [[1,1,3],[1,2,4],[1,1,2]] reduces to the identity with a six-move trace |
| ThreeByThreeExample.ReplayOnIdentityExample | src/main/java/MatrixfTest.kt:77-101 | that trace replayed on the identity is [[0,-1,2],[-2,1,1],[1,0,-1]] |
| ThreeByThreeExample.DeterminantAndInverse | src/main/java/MatrixfTest.kt:77-101 | the matrix has determinant −1, its cofactor expansion, and inverse [[0,-1,2],[-2,1,1],[1,0,-1]]; the matrix times the inverse and the inverse times the matrix are the identity |
| MatrixObject.Matrixf.constructor | src/main/java/Matrixf.kt:17-18 | a new matrix starts with both caches empty |
| MatrixObject.Matrixf.EchelonForm | src/main/java/Matrixf.kt:151-156 | returns the echelon reduction; a cached result is returned as it is; a success is cached |
| MatrixObject.Matrixf.ReducedEchelonForm | src/main/java/Matrixf.kt:189-194 | returns the reduced reduction; a cached result is returned as it is; a success is cached, and past the fast paths an empty reduced cache sends the reducer to `echelonForm()`, which fills the echelon cache on success (src/GaussJordan.kt:89) |
| MatrixObject.Matrixf.Determinant | src/main/java/Matrixf.kt:210-228 | returns DeterminantOf; the general square case goes through `reducedEchelonForm()` and leaves both caches as that call does, the 2×2 and non-square cases leave them alone |
| MatrixObject.Matrixf.Inverse | src/main/java/Matrixf.kt:230-239 | returns InverseOf; whenever `determinant()` or the reduction runs, both caches end as after `reducedEchelonForm()` |
| MatrixObject.EchelonFormTwice | src/Matrixf.kt:147-152 | asking a matrix twice gives the same result both times (the legacy cache, the same text as the current one) |
| Vectors.FromInts | src/main/java/Vectorf.kt:8 | same length, each entry the integer as a real |
| Vectors.Plus | src/main/java/Vectorf.kt:13 | fails exactly when the other vector is shorter; otherwise the entrywise sum, of the receiver's length |
| Vectors.Minus | src/main/java/Vectorf.kt:15 | fails exactly when the other vector is shorter; otherwise the entrywise difference |
| Vectors.MinusUndoesPlus | src/Vectorf.kt:11-13 | `(v + w) - w == v` |
| Vectors.PlusSymmetric | src/main/java/Vectorf.kt:13 | equal-length addition commutes; a longer receiver fails one way only |
| Vectors.TimesScalar | src/main/java/Vectorf.kt:17-18 | every entry multiplied by the scalar |
| Vectors.TimesScalarInverse | src/Vectorf.kt:15 | scaling by s then 1/s restores the vector |
| Vectors.Dot | src/main/java/Vectorf.kt:24 | fails exactly when the other vector is shorter; otherwise Σ v[i]·w[i] over the receiver's indices |
| Vectors.DotSymmetric | src/Vectorf.kt:21 | the dot product of equal-length vectors is symmetric |
| Vectors.DotScaled | src/main/java/Vectorf.kt:17-24 | scaling the receiver scales the dot product |
| Vectors.EqualsIsEquality | src/main/java/Vectorf.kt:49-57 | `equals` holds exactly for equal vectors |
| Vectors.OtherIndices | src/main/java/Vectorf.kt:37-38 | the indices other than i, increasing |
| Vectors.Cross | src/main/java/Vectorf.kt:32-43 | fails exactly when a receiver of length ≥ 2 meets a shorter vector; otherwise of the receiver's length |
| Vectors.CrossThree | src/Vectorf.kt:29-40 | for 3-vectors the components are v1w2 − w1v2, v0w2 − w0v2, v0w1 − w0v1 |
| Vectors.CrossOne | src/main/java/Vectorf.kt:32-43 | a 1-vector's cross product is [0] |
| Vectors.CrossNotOrthogonal | src/main/java/Vectorf.kt:32-43 | [1,1,0] x [0,1,1] is [1,1,1], whose dot product with [1,1,0] is 2, not 0 |
| Vectors.Cross3 | src/main/java/Vectorf.kt:32-43 | the mathematical cross product is orthogonal to both operands |
| Vectors.Cross3Corrects | src/main/java/Vectorf.kt:32-43 | the library's result matches the cross product in components 0 and 2 and has the opposite sign in component 1 |
| Probability.WrapLong | src/main/java/Probability.kt:4 | a 64-bit value congruent to x, and x itself when x fits |
| Probability.LongDiv | src/main/java/Probability.kt:12 | a 64-bit value; for Long operands other than MIN / −1 the quotient truncated toward zero (the remainder is smaller than the divisor and has the dividend's sign), and MIN / −1 wraps to MIN |
| Probability.WrappedIsExactModulo | src/main/java/Probability.kt:4-11 | the wrapping product loop equals the exact product wrapped once |
| Probability.FactIsRangeProduct | src/main/java/Probability.kt:4 | the product 1·…·n is n! |
| Probability.FactTwenty | src/main/java/Probability.kt:4 | 20! fits a Long and 21! does not |
| Probability.Factorial | src/main/java/Probability.kt:4 | fails (empty reduce) exactly for n ≤ 0; otherwise n! wrapped to 64 bits, exactly n! up to 20 |
| Probability.Quotient | src/main/java/Probability.kt:12 | propagates the factorial's error, fails on a zero divisor, and otherwise, for every Long product and nonzero Long factorial of either sign (bar MIN / −1), is the quotient truncated toward zero |
| Probability.BinomialOf | src/main/java/Probability.kt:6-14 | `IllegalArgument` exactly for a negative argument; 1 when n == k |
| Probability.Binomial | src/main/java/Probability.kt:6-16 | the loop version equals BinomialOf |
| Probability.RoundToInt | src/main/java/Probability.kt:18 | an `Int`: within one half of x (ties up) when x is in range, `Int.MAX_VALUE` for x at or above it and `Int.MIN_VALUE` for x below it |
| Probability.FactorialOfWhole | src/main/java/Probability.kt:17-18 | on a whole number `Double.fac` agrees with `Int.fac` |
| Probability.PascalFactorials | src/main/java/Probability.kt:6-14 | Pascal's C(n,k) times k!(n−k)! is n! |
| Probability.BinomialSmall | src/main/java/Probability.kt:6-14 | for 1 ≤ k ≤ n ≤ 20 `binomial` returns C(n,k) |
| Probability.BinomialAboveN | src/main/java/Probability.kt:6-14 | for k > n the loop runs through 0 and the result is 0, or a division error when k! wraps to 0 |
| Probability.FactorialOverflow | src/main/java/Probability.kt:4 | 21! wraps to −4249290049419214848 |
| Probability.BinomialOverflow | src/main/java/Probability.kt:6-14 | `21 choose 20` is −1 instead of 21 |
| Probability.BinomialNearDiagonal | src/main/java/Probability.kt:6-14 | C(n, n−1) is the wrapped n! divided by (n−1)! |
| Probability.BinomialZeroThrows | src/main/java/Probability.kt:6-14 | `binomial(n, 0)` for n > 0 raises, although C(n,0) = 1 |
| Probability.BinomialCorrected | src/main/java/Probability.kt:6-14 | the corrected binomial is C(n,k) for 0 ≤ k ≤ n ≤ 20 and rejects negative arguments |
| Probability.CorrectedAgrees | src/main/java/Probability.kt:6-14 | the corrected binomial differs from the library only at k = 0 |

## Left out

- 32-bit float rounding, NaN, infinities and −0 semantics: entries are reals, so float equality is real equality.
- `Matrices.DivScalar`: requires a nonzero scalar, a float exclusion like the one above. The library's `div` (src/main/java/Matrixf.kt:99-102) does not throw on 0; it yields infinite or NaN entries, which reals cannot hold.
- Parallel streams and the `AtomicBoolean` early exit in the shape predicates: they are modelled as plain sequential predicates.
- Thread safety of the two memo caches: there is no concurrency in the model.
- Row operations with out-of-range indices: `SwapRows`, `ScaleRow`, `ScaleAddRows` and `AddRows` require in-range rows, where the library throws or ignores them. The one place the reducer passes such a row is the backward pass on a matrix with more columns than rows, which records `Add(-v, j, i)` with j past the last row (src/GaussJordan.kt:100); there the model's BackwardRow returns the index error before recording the move, as the library throws before `moves.add`.
- `eigenvalues`, `eigenvectors` and the backtrace (solve) with its textual transcript: these are not part of this model.
- `toString`, `hashCode`, the two-decimal formatter, `fromColumns`, `init`/`set`/`get`/`row`/`column`, `clone`, `parallel`/`parallelIndexed`: they are accessors, formatting or copies of a value type with no behaviour left to state.
- `Matrixf.times(Vectorf)` and `Vectorf.times(Matrixf)`: both are left out; each is a conversion followed by `times`, which is modelled.
- `Vectorf.magnitude` and `angle`: they use `sqrt` and `acos` on floats and are left out. `magnitude` sums the entries rather than their squares.
- `Vectorf.get`: this is sequence indexing.
- The legacy matrix's non-reduction operations (map, plus, times, row operations, adjoin, echelon caches): they are textually the same as the current ones and share the `Matrices` model. Only the legacy `determinant` and `inverse` differ, and they are modelled in `LegacyMatrix`.
- `choose` and `Int.fac`: these are one-line aliases of `binomial` and `factorial`, modelled by BinomialOf and Factorial.
- `Probability.RoundToInt`: NaN, on which Kotlin's `roundToInt` throws `IllegalArgumentException`, has no counterpart among the reals and is not modelled.
- `DiscreteRandomVariable` and the abandoned search-based reducer: these are not part of this model.

## Findings

| source | as written | input that shows it | evidently intended | confidence | as-written member | corrected member |
|---|---|---|---|---|---|---|
| src/GaussJordan.kt:46-52 | when the diagonal entry is 0 the pivot search takes the first nonzero row of the whole matrix, possibly one above the pivot, and swaps it back | the invertible [[1,1,0],[1,1,1],[0,1,0]] raises `Reduction failed` | search only from the pivot row down | not executed | GaussJordan.UpwardSwapFails | GaussJordan.ForwardFromPivotIsEchelon |
| src/main/java/Vectorf.kt:32-43 | the alternating fold gives component 1 of a 3-vector cross product the wrong sign | [1,1,0] x [0,1,1] gives [1,1,1], not orthogonal to [1,1,0] | the cross product, orthogonal to both operands | not executed | Vectors.CrossNotOrthogonal | Vectors.Cross3 |
| src/main/java/Probability.kt:6-14 | `binomial(n, 0)` divides by `factorial(0)`, which reduces an empty range and throws | `5 choose 0` throws instead of giving 1 | C(n,0) = 1 | not executed | Probability.BinomialZeroThrows | Probability.BinomialCorrected |
