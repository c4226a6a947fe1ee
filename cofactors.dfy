/**
 * An independent reference for `determinant()` of src/main/java/Matrixf.kt
 * at the sizes where it can be written out: the cofactor expansion of a 2x2
 * and of a 3x3 matrix. Each recorded row operation changes the expansion by
 * its move factor (a swap negates it, a scale multiplies it by the scalar,
 * an add keeps it), so the reduction's trace factor is its reciprocal.
 */
module Cofactors {
  import opened Wrappers
  import opened Matrices
  import opened GaussJordan
  import opened Determinants
  import LegacyMatrix

  // ------------------------------------------------------------------
  // The 3x3 expansion and the row operations
  // ------------------------------------------------------------------

  /** A row of three entries. */
  predicate Row3(x: seq<real>) {
    |x| == 3
  }

  /** The cofactor expansion along the first of three rows. */
  function Triple(x: seq<real>, y: seq<real>, z: seq<real>): real
    requires Row3(x) && Row3(y) && Row3(z)
  {
    x[0] * (y[1] * z[2] - y[2] * z[1]) - x[1] * (y[0] * z[2] - y[2] * z[0]) + x[2] * (y[0] * z[1] - y[1] * z[0])
  }

  /** A 3x3 matrix. */
  predicate Square3(g: Grid) {
    IsMatrix(g) && |g| == 3 && Cols(g) == 3
  }

  /** The determinant of a 3x3 matrix by cofactor expansion along row 0 (0 for any other shape). */
  function Det3(g: Grid): real {
    if Square3(g) then Triple(g[0], g[1], g[2]) else 0.0
  }

  /** Exchanging two rows negates the expansion. */
  lemma TripleAlternates(x: seq<real>, y: seq<real>, z: seq<real>)
    requires Row3(x) && Row3(y) && Row3(z)
    ensures Triple(y, x, z) == -Triple(x, y, z)
    ensures Triple(x, z, y) == -Triple(x, y, z)
    ensures Triple(z, y, x) == -Triple(x, y, z)
  {
  }

  /** x2 is x scaled by s. */
  predicate Scaled(x2: seq<real>, x: seq<real>, s: real)
    requires Row3(x2) && Row3(x)
  {
    x2[0] == s * x[0] && x2[1] == s * x[1] && x2[2] == s * x[2]
  }

  /** Scaling one row scales the expansion. */
  lemma TripleScales(x: seq<real>, y: seq<real>, z: seq<real>, w: seq<real>, s: real)
    requires Row3(x) && Row3(y) && Row3(z) && Row3(w) && Scaled(w, x, s)
    ensures Triple(w, y, z) == s * Triple(x, y, z)
    ensures Triple(y, w, z) == s * Triple(y, x, z)
    ensures Triple(y, z, w) == s * Triple(y, z, x)
  {
  }

  /** x2 is s times u added to x. */
  predicate Added(x2: seq<real>, u: seq<real>, x: seq<real>, s: real)
    requires Row3(x2) && Row3(u) && Row3(x)
  {
    x2[0] == s * u[0] + x[0] && x2[1] == s * u[1] + x[1] && x2[2] == s * u[2] + x[2]
  }

  /** Adding a multiple of the second row to the first keeps the expansion. */
  lemma TripleAddSecond(x: seq<real>, y: seq<real>, z: seq<real>, w: seq<real>, s: real)
    requires Row3(x) && Row3(y) && Row3(z) && Row3(w) && Added(w, y, x, s)
    ensures Triple(w, y, z) == Triple(x, y, z)
  {
  }

  /** Adding a multiple of the third row to the first keeps the expansion. */
  lemma TripleAddThird(x: seq<real>, y: seq<real>, z: seq<real>, w: seq<real>, s: real)
    requires Row3(x) && Row3(y) && Row3(z) && Row3(w) && Added(w, z, x, s)
    ensures Triple(w, y, z) == Triple(x, y, z)
  {
  }

  /** Adding a multiple of one row to another keeps the expansion, whichever two rows they are. */
  lemma TripleAdds(x: seq<real>, y: seq<real>, z: seq<real>, w: seq<real>, u: nat, v: nat, s: real)
    requires Row3(x) && Row3(y) && Row3(z) && Row3(w) && u < 3 && v < 3 && u != v
    requires Added(w, [x, y, z][u], [x, y, z][v], s)
    ensures Triple([x, y, z][v := w][0], [x, y, z][v := w][1], [x, y, z][v := w][2]) == Triple(x, y, z)
  {
    var rows := [x, y, z];
    var rows' := rows[v := w];
    TripleAlternates(x, y, z);
    if v == 0 {
      if u == 1 { TripleAddSecond(x, y, z, w, s); } else { TripleAddThird(x, y, z, w, s); }
    } else if v == 1 {
      TripleAlternates(w, x, z);
      if u == 0 { TripleAddSecond(y, x, z, w, s); } else { TripleAddThird(y, x, z, w, s); }
    } else {
      TripleAlternates(w, y, x);
      if u == 0 { TripleAddThird(z, y, x, w, s); } else { TripleAddSecond(z, y, x, w, s); }
    }
  }

  /** Scaling a row multiplies the 3x3 expansion by the scalar. */
  lemma Det3Scale(g: Grid, s: real, row: nat)
    requires Square3(g) && row < 3
    ensures Det3(ScaleRow(g, row, s)) == s * Det3(g)
  {
    var h := ScaleRow(g, row, s);
    assert Scaled(h[row], g[row], s);
    if row == 0 {
      TripleScales(g[0], g[1], g[2], h[0], s);
    } else if row == 1 {
      TripleScales(g[1], g[0], g[2], h[1], s);
    } else {
      TripleScales(g[2], g[0], g[1], h[2], s);
    }
  }

  /** Exchanging two different rows negates the 3x3 expansion. */
  lemma Det3Swap(g: Grid, r1: nat, r2: nat)
    requires Square3(g) && r1 < 3 && r2 < 3 && r1 != r2
    ensures Det3(SwapRows(g, r1, r2)) == -Det3(g)
  {
    TripleAlternates(g[0], g[1], g[2]);
  }

  /** Adding a multiple of one row to a different row keeps the 3x3 expansion. */
  lemma Det3Add(g: Grid, s: real, r1: nat, r2: nat)
    requires Square3(g) && r1 < 3 && r2 < 3 && r1 != r2
    ensures Det3(ScaleAddRows(g, s, r1, r2)) == Det3(g)
  {
    var h := ScaleAddRows(g, s, r1, r2);
    assert g == [g[0], g[1], g[2]];
    assert h == g[r2 := h[r2]];
    assert Added(h[r2], g[r1], g[r2], s);
    TripleAdds(g[0], g[1], g[2], h[r2], r1, r2, s);
  }

  /** One recorded move changes the 3x3 expansion by the move's factor. */
  lemma Det3Move(g: Grid, mv: Move)
    requires Square3(g) && Fits(mv, 3) && WellFormed(mv)
    ensures Square3(ApplyMove(g, mv))
    ensures Det3(ApplyMove(g, mv)) == MoveFactor(mv) * Det3(g)
  {
    match mv
    case Scale(s, row) => Det3Scale(g, s, row);
    case Swap(r1, r2) => Det3Swap(g, r1, r2);
    case Add(s, r1, r2) => Det3Add(g, s, r1, r2);
  }

  /** Replaying a trace is applying its first move, then replaying the rest. */
  lemma ReplayFirst(g: Grid, t: seq<Move>)
    requires IsMatrix(g) && AllFit(t, |g|) && t != []
    ensures Replay(g, t) == Replay(ApplyMove(g, t[0]), t[1..])
  {
    var u := [t[0]];
    ReplayAppend(g, u, t[1..]);
    assert u + t[1..] == t;
    assert u[..0] == [];
  }

  /** The first move of a good trace is well formed, and the rest is a good trace. */
  lemma GoodTraceRest(t: seq<Move>, rows: nat)
    requires GoodTrace(t, rows) && t != []
    ensures WellFormed(t[0]) && Fits(t[0], rows) && GoodTrace(t[1..], rows)
  {
    forall k | 0 <= k < |t[1..]| ensures WellFormed(t[1..][k]) && Fits(t[1..][k], rows) {
      assert t[1..][k] == t[k + 1];
    }
  }

  /** The trace factor peels off its first move. */
  lemma TraceFactorFirst(t: seq<Move>, f: real, m: real, p: real)
    requires t != [] && f == TraceFactor(t[1..]) && m == MoveFactor(t[0]) && p == TraceFactor(t)
    ensures p == f * m
  {
  }

  /** Two scalings in a row are one scaling by the product. */
  lemma Regroup(x: real, y: real, f: real, m: real, d: real, p: real)
    requires x == f * y && y == m * d && p == f * m
    ensures x == p * d
  {
  }

  /** A real sequence that each step multiplies by the next factor ends at the product of the factors times its start. */
  lemma {:induction false} ChainProduct(d: seq<real>, m: seq<real>)
    requires |d| == |m| + 1
    requires forall k {:trigger m[k]} | 0 <= k < |m| :: d[k + 1] == Mul(m[k], d[k])
    ensures d[|m|] == Mul(ProductOf(m), d[0])
    decreases |m|
  {
    if m != [] {
      forall k | 0 <= k < |m[1..]| ensures d[1..][k + 1] == Mul(m[1..][k], d[1..][k]) {
        assert d[k + 2] == Mul(m[k + 1], d[k + 1]);
      }
      ChainProduct(d[1..], m[1..]);
      Regroup(d[|m|], d[1], ProductOf(m[1..]), m[0], d[0], ProductOf(m));
    }
  }

  /** The move factors of a trace, in order. */
  function Factors(t: seq<Move>): (m: seq<real>)
    ensures |m| == |t| && forall k | 0 <= k < |t| :: m[k] == MoveFactor(t[k])
  {
    seq(|t|, k requires 0 <= k < |t| => MoveFactor(t[k]))
  }

  /** The trace factor is the product of the move factors. */
  lemma {:induction false} TraceFactorIsProduct(t: seq<Move>)
    ensures TraceFactor(t) == ProductOf(Factors(t))
    decreases |t|
  {
    if t != [] {
      TraceFactorIsProduct(t[1..]);
      assert Factors(t)[1..] == Factors(t[1..]);
      TraceFactorFirst(t, TraceFactor(t[1..]), MoveFactor(t[0]), TraceFactor(t));
    }
  }

  /** One move applied; the name keeps the quantifier below to the calls that ask for it. */
  function Moved(h: Grid, mv: Move): Grid
    requires IsMatrix(h) && Fits(mv, |h|)
  {
    ApplyMove(h, mv)
  }

  /** Every well-formed move on an n x n matrix multiplies `det` by the move's factor. */
  ghost predicate ScaledByMoves(det: Grid -> real, n: nat) {
    forall h: Grid, mv: Move | IsMatrix(h) && |h| == n && Cols(h) == n && Fits(mv, n) && WellFormed(mv) ::
      det(Moved(h, mv)) == Mul(MoveFactor(mv), det(h))
  }

  /** `det` after the first k moves of a trace. */
  ghost function DetAfter(det: Grid -> real, g: Grid, t: seq<Move>, k: nat): real
    requires IsMatrix(g) && AllFit(t, |g|) && k <= |t|
  {
    assert AllFit(t[..k], |g|);
    det(Replay(g, t[..k]))
  }

  /** The (k+1)-th move multiplies such a `det` by its factor. */
  lemma DetStep(det: Grid -> real, n: nat, g: Grid, t: seq<Move>, k: nat)
    requires ScaledByMoves(det, n) && IsMatrix(g) && |g| == n && Cols(g) == n && GoodTrace(t, n) && k < |t|
    ensures DetAfter(det, g, t, k + 1) == Mul(MoveFactor(t[k]), DetAfter(det, g, t, k))
  {
    assert t[..k + 1][..k] == t[..k];
    assert AllFit(t[..k], n) && AllFit(t[..k + 1], n);
    var before := Replay(g, t[..k]);
    assert Replay(g, t[..k + 1]) == Moved(before, t[k]);
    assert det(Moved(before, t[k])) == Mul(MoveFactor(t[k]), det(before));
  }

  /** Replaying a good trace multiplies such a `det` by the trace factor. */
  lemma ReplayScales(det: Grid -> real, n: nat, g: Grid, t: seq<Move>)
    requires ScaledByMoves(det, n) && IsMatrix(g) && |g| == n && Cols(g) == n && GoodTrace(t, n)
    ensures det(Replay(g, t)) == Mul(TraceFactor(t), det(g))
  {
    var d := seq(|t| + 1, k requires 0 <= k <= |t| => DetAfter(det, g, t, k));
    var m := Factors(t);
    forall k {:trigger m[k]} | 0 <= k < |m| ensures d[k + 1] == Mul(m[k], d[k]) {
      DetStep(det, n, g, t, k);
    }
    ChainProduct(d, m);
    TraceFactorIsProduct(t);
    assert t[..|t|] == t;
    assert t[..0] == [];
  }

  /** The 3x3 expansion is one such `det`. */
  lemma Det3ScaledByMoves()
    ensures ScaledByMoves(Det3, 3)
  {
    forall h: Grid, mv: Move | IsMatrix(h) && |h| == 3 && Cols(h) == 3 && Fits(mv, 3) && WellFormed(mv)
      ensures Det3(Moved(h, mv)) == Mul(MoveFactor(mv), Det3(h))
    {
      Det3Move(h, mv);
    }
  }

  /** Replaying a good trace multiplies the 3x3 expansion by the trace factor. */
  lemma Det3Replay(g: Grid, t: seq<Move>)
    requires Square3(g) && GoodTrace(t, 3)
    ensures Square3(Replay(g, t))
    ensures Det3(Replay(g, t)) == Mul(TraceFactor(t), Det3(g))
  {
    Det3ScaledByMoves();
    ReplayScales(Det3, 3, g, t);
  }

  /** A 3x3 matrix with an all-zero row has expansion 0. */
  lemma Det3ZeroRow(g: Grid)
    requires Square3(g) && HasZeroRow(g)
    ensures Det3(g) == 0.0
  {
    var i :| 0 <= i < |g| && IsZeroRow(g[i]);
    assert g[i][0] == 0.0 && g[i][1] == 0.0 && g[i][2] == 0.0;
  }

  /** The 3x3 identity has expansion 1. */
  lemma Det3Identity()
    ensures Det3(Identity(3, 3)) == 1.0
  {
    var id := Identity(3, 3);
    assert id[0] == [1.0, 0.0, 0.0] && id[1] == [0.0, 1.0, 0.0] && id[2] == [0.0, 0.0, 1.0];
  }

  /**
   * For a 3x3 matrix, whenever `determinant()` returns a value it is the
   * cofactor expansion: 0 on a zero row, and otherwise the reciprocal of the
   * trace factor, because the trace carries the matrix to the identity.
   */
  lemma DeterminantIsCofactorExpansion3(a: Grid)
    requires Square3(a)
    ensures DeterminantOf(a).Ok? <==> ReduceToReducedEchelon(a).Ok?
    ensures DeterminantOf(a).Ok? ==> DeterminantOf(a) == Ok(Det3(a))
  {
    ReducedResult(a);
    ReducedTrace(a);
    if ReduceToReducedEchelon(a).Ok? {
      var res := ReduceToReducedEchelon(a).value;
      if HasZeroRow(res.matrix) {
        Det3ZeroRow(a);
      } else {
        SquareReducedIsIdentity(res.matrix);
        Det3Replay(a, res.trace);
        Det3Identity();
        Reciprocal(TraceFactor(res.trace), Det3(a));
      }
    }
  }

  // ------------------------------------------------------------------
  // The 2x2 expansion
  // ------------------------------------------------------------------

  /** A 2x2 matrix. */
  predicate Square2(g: Grid) {
    IsMatrix(g) && |g| == 2 && Cols(g) == 2
  }

  /** ad - bc for a 2x2 matrix (0 for any other shape). */
  function Det2(g: Grid): real {
    if Square2(g) then g[0][0] * g[1][1] - g[0][1] * g[1][0] else 0.0
  }

  /** Scaling one row of a 2x2 by s scales ad - bc by s. */
  lemma Det2Scale(g: Grid, s: real, row: nat)
    requires Square2(g) && row < 2
    ensures Det2(ScaleRow(g, row, s)) == Mul(s, Det2(g))
  {
    var h := ScaleRow(g, row, s);
    var a, b, c, d := g[0][0], g[0][1], g[1][0], g[1][1];
    if row == 0 {
      assert h[0][0] == s * a && h[0][1] == s * b && h[1] == g[1];
      ScaledDifference(a, b, c, d, s);
    } else {
      assert h[1][0] == s * c && h[1][1] == s * d && h[0] == g[0];
      ScaledDifference(a, b, c, d, s);
    }
  }

  lemma ScaledDifference(a: real, b: real, c: real, d: real, s: real)
    ensures (s * a) * d - (s * b) * c == Mul(s, a * d - b * c)
    ensures a * (s * d) - b * (s * c) == Mul(s, a * d - b * c)
  {
  }

  /** Exchanging the two rows of a 2x2 negates ad - bc. */
  lemma Det2Swap(g: Grid, r1: nat, r2: nat)
    requires Square2(g) && r1 < 2 && r2 < 2 && r1 != r2
    ensures Det2(SwapRows(g, r1, r2)) == Mul(-1.0, Det2(g))
  {
    var h := SwapRows(g, r1, r2);
    assert h[0] == g[1] && h[1] == g[0];
  }

  /** Adding a multiple of one row of a 2x2 to the other keeps ad - bc. */
  lemma Det2Add(g: Grid, s: real, r1: nat, r2: nat)
    requires Square2(g) && r1 < 2 && r2 < 2 && r1 != r2
    ensures Det2(ScaleAddRows(g, s, r1, r2)) == Det2(g)
  {
    var h := ScaleAddRows(g, s, r1, r2);
    var a, b, c, d := g[0][0], g[0][1], g[1][0], g[1][1];
    if r2 == 0 {
      assert h[0][0] == s * c + a && h[0][1] == s * d + b && h[1] == g[1];
      AddedDifference(a, b, c, d, s);
    } else {
      assert h[1][0] == s * a + c && h[1][1] == s * b + d && h[0] == g[0];
      AddedDifference(a, b, c, d, s);
    }
  }

  lemma AddedDifference(a: real, b: real, c: real, d: real, s: real)
    ensures (s * c + a) * d - (s * d + b) * c == a * d - b * c
    ensures a * (s * b + d) - b * (s * a + c) == a * d - b * c
  {
  }

  /** One recorded move changes ad - bc by the move's factor. */
  lemma Det2Move(g: Grid, mv: Move)
    requires Square2(g) && Fits(mv, 2) && WellFormed(mv)
    ensures Square2(ApplyMove(g, mv))
    ensures Det2(ApplyMove(g, mv)) == Mul(MoveFactor(mv), Det2(g))
  {
    match mv
    case Scale(s, row) => Det2Scale(g, s, row);
    case Swap(r1, r2) => Det2Swap(g, r1, r2);
    case Add(s, r1, r2) => Det2Add(g, s, r1, r2);
  }

  /** ad - bc is one such `det`. */
  lemma Det2ScaledByMoves()
    ensures ScaledByMoves(Det2, 2)
  {
    forall h: Grid, mv: Move | IsMatrix(h) && |h| == 2 && Cols(h) == 2 && Fits(mv, 2) && WellFormed(mv)
      ensures Det2(Moved(h, mv)) == Mul(MoveFactor(mv), Det2(h))
    {
      Det2Move(h, mv);
    }
  }

  /** Replaying a good trace multiplies ad - bc by the trace factor. */
  lemma Det2Replay(g: Grid, t: seq<Move>)
    requires Square2(g) && GoodTrace(t, 2)
    ensures Square2(Replay(g, t))
    ensures Det2(Replay(g, t)) == Mul(TraceFactor(t), Det2(g))
  {
    Det2ScaledByMoves();
    ReplayScales(Det2, 2, g, t);
  }

  /** A 2x2 matrix with an all-zero row has ad - bc = 0. */
  lemma Det2ZeroRow(g: Grid)
    requires Square2(g) && HasZeroRow(g)
    ensures Det2(g) == 0.0
  {
    var i :| 0 <= i < |g| && IsZeroRow(g[i]);
    assert g[i][0] == 0.0 && g[i][1] == 0.0;
  }

  /**
   * The older `determinant()` has no 2x2 closed form, but whenever it
   * returns a value on a 2x2 matrix that value is ad - bc, which is what
   * the newer one returns.
   */
  lemma LegacyTwoByTwo(a: Grid)
    requires Square2(a)
    ensures LegacyMatrix.DeterminantOf(a).Ok? ==> LegacyMatrix.DeterminantOf(a) == Ok(Det2(a))
    ensures LegacyMatrix.DeterminantOf(a).Ok? ==> LegacyMatrix.DeterminantOf(a) == DeterminantOf(a)
  {
    ReducedResult(a);
    ReducedTrace(a);
    if ReduceToReducedEchelon(a).Ok? {
      var res := ReduceToReducedEchelon(a).value;
      if HasZeroRow(res.matrix) {
        Det2ZeroRow(a);
      } else {
        SquareReducedIsIdentity(res.matrix);
        Det2ReducesToIdentity(a, res.trace);
      }
    }
  }

  /** A trace that carries a 2x2 matrix to the identity has ad - bc as the reciprocal of its factor. */
  lemma Det2ReducesToIdentity(a: Grid, t: seq<Move>)
    requires Square2(a) && GoodTrace(t, 2) && Replay(a, t) == Identity(2, 2)
    ensures TraceFactor(t) != 0.0 && 1.0 / TraceFactor(t) == Det2(a)
  {
    Det2Replay(a, t);
    var id := Identity(2, 2);
    assert id[0] == [1.0, 0.0] && id[1] == [0.0, 1.0];
    Reciprocal(TraceFactor(t), Det2(a));
  }

  // ------------------------------------------------------------------
  // A 2x2 matrix with ad - bc != 0 reduces to the identity
  // ------------------------------------------------------------------

  /** A product of two nonzero reals is nonzero. */
  lemma MulNonzero(f: real, x: real)
    requires f != 0.0 && x != 0.0
    ensures Mul(f, x) != 0.0
  {
  }

  /** A state reached from a by a good trace keeps ad - bc nonzero. */
  lemma TrackedDet2Nonzero(a: Grid, st: State)
    requires Square2(a) && Det2(a) != 0.0 && Tracks(a, st) && GoodTrace(st.moves, 2)
    ensures Square2(st.m) && Det2(st.m) != 0.0
  {
    Det2Replay(a, st.moves);
    TraceFactorNonzero(st.moves);
    MulNonzero(TraceFactor(st.moves), Det2(a));
  }

  /** Forward moves at one pivot column are well formed. */
  lemma ForwardMovesGood(s: seq<Move>, t: seq<Move>, i: nat, rows: nat)
    requires GoodTrace(s, rows) && |s| <= |t| && t[..|s|] == s
    requires forall k | |s| <= k < |t| :: ForwardMove(t[k], i) && Fits(t[k], rows)
    ensures GoodTrace(t, rows)
  {
    forall k | 0 <= k < |t| ensures WellFormed(t[k]) && Fits(t[k], rows) {
      if k < |s| {
        assert t[k] == t[..|s|][k];
      }
    }
  }

  /**
   * With ad - bc != 0 the forward pass never meets an all-zero column: column
   * 0 has a nonzero entry, and after step 0 the entry (1, 1) is the new
   * ad - bc, so step 1 keeps row 1 as its pivot. The result is
   * [[1, x], [0, 1]].
   */
  lemma ForwardTwoByTwo(a: Grid)
    requires Square2(a) && Det2(a) != 0.0
    ensures ForwardFrom(State(a, []), 0, FromTop).Ok?
    ensures (var m := ForwardFrom(State(a, []), 0, FromTop).value.m;
      Square2(m) && m[0][0] == 1.0 && m[1][0] == 0.0 && m[1][1] == 1.0)
  {
    var st0 := State(a, []);
    assert Tracks(a, st0);
    var step0 := ForwardStep(st0, 0, FromTop);
    assert step0.Ok?;
    var st1 := step0.value;
    ForwardStepTracks(a, st0, 0, FromTop);
    ForwardMovesGood([], st1.moves, 0, 2);
    TrackedDet2Nonzero(a, st1);
    assert st1.m[1][1] != 0.0;
    var ti := PivotRow(st1.m, 1, FromTop).value;
    assert ti == 1;
    var scaled := ScaleToOne(SwapInto(st1, 1, 1), 1);
    var st2 := EliminateBelow(scaled, 1, 2);
    assert ForwardStep(st1, 1, FromTop) == Ok(st2);
    assert st2.m[0] == st1.m[0];
    assert ForwardFrom(st1, 1, FromTop) == Ok(st2);
  }

  /** The backward pass on [[1, x], [0, 1]] clears x and ends at the identity. */
  lemma BackwardTwoByTwo(st: State)
    requires Square2(st.m) && IsEchelonForm(st.m)
    ensures BackwardFrom(st, 0).Ok? && IsReducedEchelonForm(BackwardFrom(st, 0).value.m)
  {
    var m := st.m;
    assert m[0][0] == 1.0 && m[1][0] == 0.0 && m[1][1] == 1.0;
    var r0: State;
    if m[0][1] != 0.0 {
      r0 := Record(st, Add(-m[0][1], 1, 0));
      assert BackwardRow(st, 0, 1) == BackwardRow(r0, 0, 2);
    } else {
      r0 := st;
    }
    assert BackwardRow(st, 0, 0) == Ok(r0);
    assert r0.m[0][0] == 1.0 && r0.m[0][1] == 0.0 && r0.m[1] == m[1];
    assert BackwardRow(r0, 1, 1) == Ok(r0);
    assert BackwardRow(r0, 1, 0) == Ok(r0);
    assert BackwardFrom(r0, 1) == Ok(r0);
  }

  /** A 2x2 matrix with ad - bc != 0 reduces to REDUCED_ROW_ECHELON. */
  lemma TwoByTwoReduces(a: Grid)
    requires Square2(a) && Det2(a) != 0.0
    ensures ReduceToReducedEchelon(a).Ok? && ReduceToReducedEchelon(a).value.resultType == REDUCED_ROW_ECHELON
  {
    if HasZeroRow(a) {
      Det2ZeroRow(a);
    }
    ReducedResult(a);
    if !IsReducedEchelonForm(a) {
      if !IsEchelonForm(a) {
        ForwardTwoByTwo(a);
      }
      EchelonResult(a);
      var echelon := ReduceToEchelon(a).value;
      if !IsReducedEchelonForm(echelon.matrix) {
        BackwardTwoByTwo(State(echelon.matrix, echelon.trace));
      }
    }
  }

  /**
   * A square matrix whose determinant is defined and nonzero has an
   * inverse: beyond 2x2 the reduction behind the determinant is
   * REDUCED_ROW_ECHELON, and at 2x2 ad - bc != 0 makes it so.
   */
  lemma NonzeroDeterminantHasInverse(a: Grid)
    requires IsMatrix(a) && |a| == Cols(a) && DeterminantOf(a).Ok? && DeterminantOf(a) != Ok(0.0)
    ensures InverseOf(a).Ok? && InverseOf(a).value.Some?
  {
    ReducedResult(a);
    if |a| == 2 {
      TwoByTwoReduces(a);
    }
  }
}
