/**
 * The Gauss-Jordan reducer of GaussJordan.kt.
 *
 * A reduction keeps a working matrix and an append-only list of the
 * elementary row operations (moves) applied to it. The forward pass walks
 * the diagonal, finds a pivot, swaps it into place, scales it to 1 and
 * clears the entries below it; the backward pass clears every remaining
 * off-diagonal entry. Each run ends in a classification.
 *
 * The passes are specified by tail-recursive functions over a `State`
 * (ForwardFrom, EliminateBelow, BackwardFrom, BackwardRow); the imperative
 * methods ReduceMatrixToEchelon and ReduceMatrixToReducedEchelonForm are
 * proved to compute exactly what those functions compute, and the lemmas
 * of this module state what the functions guarantee.
 */
module GaussJordan {
  import opened Wrappers
  import opened Matrices

  // ------------------------------------------------------------------
  // Moves
  // ------------------------------------------------------------------

  /** An elementary row operation, as recorded in a trace. */
  datatype Move =
    | Scale(scalar: real, row: int)
    | Swap(r1: int, r2: int)
    | Add(scalar: real, r1: int, r2: int)   // row r2 := scalar * row r1 + row r2

  datatype ReductionResultType = ROW_ECHELON | REDUCED_ROW_ECHELON | PARAMETRIC

  datatype ReductionResult = ReductionResult(matrix: Grid, trace: seq<Move>, resultType: ReductionResultType)

  /** The move only names rows of a matrix with `rows` rows. */
  predicate Fits(mv: Move, rows: nat) {
    match mv
    case Scale(_, row) => 0 <= row < rows
    case Swap(r1, r2) => 0 <= r1 < rows && 0 <= r2 < rows
    case Add(_, r1, r2) => 0 <= r1 < rows && 0 <= r2 < rows
  }

  predicate AllFit(t: seq<Move>, rows: nat) {
    forall k | 0 <= k < |t| :: Fits(t[k], rows)
  }

  /** `applyMove`: each move is the row operation of the same name. */
  function ApplyMove(g: Grid, mv: Move): (r: Grid)
    requires IsMatrix(g) && Fits(mv, |g|)
    ensures IsMatrix(r) && |r| == |g| && Cols(r) == Cols(g)
  {
    match mv
    case Scale(s, row) => ScaleRow(g, row, s)
    case Swap(r1, r2) => SwapRows(g, r1, r2)
    case Add(s, r1, r2) => ScaleAddRows(g, s, r1, r2)
  }

  /** A move that can be undone: a nonzero scale, any swap, an add between two different rows. */
  predicate Invertible(mv: Move) {
    match mv
    case Scale(s, _) => s != 0.0
    case Swap(_, _) => true
    case Add(_, r1, r2) => r1 != r2
  }

  /** The elementary row operation that undoes an invertible move. */
  function Undo(mv: Move): Move
    requires Invertible(mv)
  {
    match mv
    case Scale(s, row) => Scale(1.0 / s, row)
    case Swap(r1, r2) => Swap(r1, r2)
    case Add(s, r1, r2) => Add(-s, r1, r2)
  }

  /** Applying a move and then its undo gives the matrix back. */
  lemma UndoMove(g: Grid, mv: Move)
    requires IsMatrix(g) && Fits(mv, |g|) && Invertible(mv)
    ensures Fits(Undo(mv), |g|) && ApplyMove(ApplyMove(g, mv), Undo(mv)) == g
  {
    var h := ApplyMove(ApplyMove(g, mv), Undo(mv));
    match mv
    case Scale(s, row) =>
      forall i | 0 <= i < |g| ensures h[i] == g[i] {
        if i == row {
          forall j | 0 <= j < Cols(g) ensures h[i][j] == g[i][j] {
            assert h[i][j] == (g[i][j] * s) * (1.0 / s);
          }
        }
      }
    case Swap(r1, r2) =>
    case Add(s, r1, r2) =>
      forall i | 0 <= i < |g| ensures h[i] == g[i] {
        if i == r2 {
          forall j | 0 <= j < Cols(g) ensures h[i][j] == g[i][j] {
            assert h[i][j] == -s * g[r1][j] + (s * g[r1][j] + g[r2][j]);
          }
        }
      }
  }

  // ------------------------------------------------------------------
  // Traces
  // ------------------------------------------------------------------

  /** Folding `applyMove` over a trace, first move first. */
  function Replay(g: Grid, t: seq<Move>): (r: Grid)
    requires IsMatrix(g) && AllFit(t, |g|)
    ensures IsMatrix(r) && |r| == |g| && Cols(r) == Cols(g)
    decreases |t|
  {
    if t == [] then g else ApplyMove(Replay(g, t[..|t| - 1]), t[|t| - 1])
  }

  /** Replaying two traces one after the other is replaying their concatenation. */
  lemma {:induction false} ReplayAppend(g: Grid, t: seq<Move>, u: seq<Move>)
    requires IsMatrix(g) && AllFit(t, |g|) && AllFit(u, |g|)
    ensures AllFit(t + u, |g|) && Replay(g, t + u) == Replay(Replay(g, t), u)
    decreases |u|
  {
    if u != [] {
      var u' := u[..|u| - 1];
      ReplayAppend(g, t, u');
      assert (t + u)[..|t + u| - 1] == t + u';
    } else {
      assert t + u == t;
    }
  }

  /** Replaying a trace is multiplying on the left by the trace replayed on the left factor. */
  lemma {:induction false} ReplayIsLeftProduct(p: Grid, x: Grid, t: seq<Move>)
    requires IsMatrix(p) && IsMatrix(x) && Cols(p) == |x| && AllFit(t, |p|)
    ensures Replay(Product(p, x), t) == Product(Replay(p, t), x)
    decreases |t|
  {
    if t != [] {
      var t' := t[..|t| - 1];
      ReplayIsLeftProduct(p, x, t');
      var q := Replay(p, t');
      match t[|t| - 1]
      case Scale(s, row) => ScaleRowProduct(q, x, row, s);
      case Swap(r1, r2) => SwapRowsProduct(q, x, r1, r2);
      case Add(s, r1, r2) => ScaleAddRowsProduct(q, x, s, r1, r2);
    }
  }

  /** Replaying a trace on x is multiplying x by the trace replayed on the identity. */
  lemma ReplayOnIdentity(x: Grid, t: seq<Move>)
    requires IsMatrix(x) && AllFit(t, |x|)
    ensures Replay(x, t) == Product(Replay(Identity(|x|, |x|), t), x)
  {
    IdentityTimes(x);
    ReplayIsLeftProduct(Identity(|x|, |x|), x, t);
  }

  /** A trace of invertible moves that name rows of a matrix with `rows` rows. */
  predicate InvertibleTrace(t: seq<Move>, rows: nat) {
    forall k | 0 <= k < |t| :: Invertible(t[k]) && Fits(t[k], rows)
  }

  /** The undo of every move of an invertible trace, last move first. */
  function UndoAll(t: seq<Move>, rows: nat): (r: seq<Move>)
    requires InvertibleTrace(t, rows)
    ensures |r| == |t| && AllFit(r, rows)
    decreases |t|
  {
    if t == [] then [] else [Undo(t[|t| - 1])] + UndoAll(t[..|t| - 1], rows)
  }

  /** Replaying the undo trace after a trace gives the matrix back. */
  lemma {:induction false} ReplayUndoAll(g: Grid, t: seq<Move>)
    requires IsMatrix(g) && InvertibleTrace(t, |g|)
    ensures Replay(Replay(g, t), UndoAll(t, |g|)) == g
    decreases |t|
  {
    if t != [] {
      var t', mv := t[..|t| - 1], t[|t| - 1];
      var h := Replay(g, t');
      UndoMove(h, mv);
      var u := [Undo(mv)];
      assert u[..0] == [];
      assert Replay(ApplyMove(h, mv), u) == h;
      ReplayAppend(ApplyMove(h, mv), u, UndoAll(t', |g|));
      assert u + UndoAll(t', |g|) == UndoAll(t, |g|);
      ReplayUndoAll(g, t');
    }
  }

  // ------------------------------------------------------------------
  // Reduction state
  // ------------------------------------------------------------------

  /** The working matrix and the moves recorded so far. */
  datatype State = State(m: Grid, moves: seq<Move>)

  /** Rebinding the working matrix always goes with recording the same move. */
  function Record(st: State, mv: Move): (r: State)
    requires IsMatrix(st.m) && Fits(mv, |st.m|)
    ensures IsMatrix(r.m) && |r.m| == |st.m| && Cols(r.m) == Cols(st.m)
    ensures r.moves == st.moves + [mv]
  {
    State(ApplyMove(st.m, mv), st.moves + [mv])
  }

  /** The state's matrix is its trace replayed on `a`. */
  ghost predicate Tracks(a: Grid, st: State) {
    && IsMatrix(a) && IsMatrix(st.m) && |st.m| == |a| && Cols(st.m) == Cols(a)
    && AllFit(st.moves, |a|) && Replay(a, st.moves) == st.m
  }

  lemma RecordTracks(a: Grid, st: State, mv: Move)
    requires Tracks(a, st) && Fits(mv, |a|)
    ensures Tracks(a, Record(st, mv))
  {
    var t := st.moves + [mv];
    assert t[..|t| - 1] == st.moves;
  }

  /** The moves the forward pass records at pivot column i. */
  predicate ForwardMove(mv: Move, i: int) {
    match mv
    case Swap(r1, r2) => r1 == i && r2 != i
    case Scale(s, row) => row == i && s != 0.0 && s != 1.0
    case Add(s, r1, r2) => r1 == i && i < r2 && s != 0.0
  }

  /** The moves the backward pass records while clearing row i. */
  predicate BackwardMove(mv: Move, i: int) {
    mv.Add? && mv.r2 == i && mv.r1 != i && mv.scalar != 0.0
  }

  /** What every recorded move satisfies: no identity scale, no swap or add of a row with itself. */
  predicate WellFormed(mv: Move) {
    match mv
    case Scale(s, _) => s != 0.0 && s != 1.0
    case Swap(r1, r2) => r1 != r2
    case Add(s, r1, r2) => r1 != r2 && s != 0.0
  }

  /** A trace whose moves are well formed and name rows of a matrix with `rows` rows. */
  predicate GoodTrace(t: seq<Move>, rows: nat) {
    forall k | 0 <= k < |t| :: WellFormed(t[k]) && Fits(t[k], rows)
  }

  // ------------------------------------------------------------------
  // Forward elimination
  // ------------------------------------------------------------------

  /**
   * The pivot search: the lowest row index at or after `from` whose entry
   * in `col` is nonzero. The reducer searches from row 0, so the row found
   * can lie above the current pivot row.
   */
  function FirstNonzeroRow(m: Grid, col: nat, from: nat): (r: Option<nat>)
    requires IsMatrix(m) && col < Cols(m) && from <= |m|
    ensures r.Some? ==> from <= r.value < |m| && m[r.value][col] != 0.0
    ensures r.Some? ==> forall k | from <= k < r.value :: m[k][col] == 0.0
    ensures r.None? <==> forall k | from <= k < |m| :: m[k][col] == 0.0
    decreases |m| - from
  {
    if from == |m| then None
    else if m[from][col] != 0.0 then Some(from)
    else FirstNonzeroRow(m, col, from + 1)
  }

  /** Clearing column i in rows ri.. by adding multiples of pivot row i. */
  function EliminateBelow(st: State, i: nat, ri: nat): (r: State)
    requires IsMatrix(st.m) && i < Cols(st.m) && i < ri <= |st.m|
    ensures IsMatrix(r.m) && |r.m| == |st.m| && Cols(r.m) == Cols(st.m)
    ensures |st.moves| <= |r.moves| && r.moves[..|st.moves|] == st.moves
    ensures forall k | |st.moves| <= k < |r.moves| :: ForwardMove(r.moves[k], i) && Fits(r.moves[k], |st.m|)
    ensures forall k | 0 <= k < ri :: r.m[k] == st.m[k]
    ensures st.m[i][i] == 1.0 ==> forall k | ri <= k < |st.m| :: r.m[k][i] == 0.0
    ensures forall k, c | 0 <= k < |st.m| && 0 <= c < Cols(st.m) && st.m[i][c] == 0.0 :: r.m[k][c] == st.m[k][c]
    decreases |st.m| - ri
  {
    if ri == |st.m| then st
    else if st.m[ri][i] != 0.0 then
      var next := Record(st, Add(-st.m[ri][i], i, ri));
      var r := EliminateBelow(next, i, ri + 1);
      assert r.moves[..|st.moves|] == next.moves[..|next.moves|][..|st.moves|];
      r
    else EliminateBelow(st, i, ri + 1)
  }

  /**
   * Where the pivot search for column i starts: the library searches from
   * row 0 (FromTop); the corrected search starts at row i (FromPivot).
   */
  datatype Search = FromTop | FromPivot

  function SearchStart(search: Search, i: nat): nat {
    if search == FromTop then 0 else i
  }

  /** The pivot row for column i: row i itself when its entry is nonzero, else the first row from the search start that is. */
  function PivotRow(m: Grid, i: nat, search: Search): (r: Option<nat>)
    requires IsMatrix(m) && i < |m| && i < Cols(m)
    ensures r.Some? ==> SearchStart(search, i) <= r.value < |m| && m[r.value][i] != 0.0
    ensures r.Some? && m[i][i] != 0.0 ==> r.value == i
    ensures r.None? <==> forall k | SearchStart(search, i) <= k < |m| :: m[k][i] == 0.0
  {
    if m[i][i] == 0.0 then FirstNonzeroRow(m, i, SearchStart(search, i)) else Some(i)
  }

  /** Bringing the pivot row ti into row i, recorded as a swap when ti is another row. */
  function SwapInto(st: State, i: nat, ti: nat): (r: State)
    requires IsMatrix(st.m) && i < |st.m| && ti < |st.m|
    ensures IsMatrix(r.m) && |r.m| == |st.m| && Cols(r.m) == Cols(st.m)
    ensures r.m[i] == st.m[ti] && r.m[ti] == st.m[i]
    ensures forall k | 0 <= k < |st.m| && k != i && k != ti :: r.m[k] == st.m[k]
    ensures |st.moves| <= |r.moves| <= |st.moves| + 1 && r.moves[..|st.moves|] == st.moves
    ensures forall k | |st.moves| <= k < |r.moves| :: ForwardMove(r.moves[k], i) && Fits(r.moves[k], |st.m|)
  {
    if ti != i then Record(st, Swap(i, ti)) else st
  }

  /** Scaling pivot row i so that its pivot is 1, recorded only when it is not 1 already. */
  function ScaleToOne(st: State, i: nat): (r: State)
    requires IsMatrix(st.m) && i < |st.m| && i < Cols(st.m) && st.m[i][i] != 0.0
    ensures IsMatrix(r.m) && |r.m| == |st.m| && Cols(r.m) == Cols(st.m)
    ensures r.m[i][i] == 1.0
    ensures forall c | 0 <= c < Cols(st.m) :: r.m[i][c] == 0.0 <==> st.m[i][c] == 0.0
    ensures forall k | 0 <= k < |st.m| && k != i :: r.m[k] == st.m[k]
    ensures |st.moves| <= |r.moves| <= |st.moves| + 1 && r.moves[..|st.moves|] == st.moves
    ensures forall k | |st.moves| <= k < |r.moves| :: ForwardMove(r.moves[k], i) && Fits(r.moves[k], |st.m|)
  {
    var tv := st.m[i][i];
    if tv != 1.0 then
      var r := Record(st, Scale(1.0 / tv, i));
      assert r.m[i][i] == tv * (1.0 / tv) == 1.0;
      assert r.moves[..|st.moves|] == st.moves;
      r
    else st
  }

  /** Step i of the forward pass: pivot search, swap, scale, eliminate below. */
  function ForwardStep(st: State, i: nat, search: Search): (r: Result<State>)
    requires IsMatrix(st.m) && i < |st.m|
    ensures r == Err(IndexOutOfBounds) <==> i >= Cols(st.m)
    ensures r == Err(AllZeroColumn) <==> i < Cols(st.m) && forall k | SearchStart(search, i) <= k < |st.m| :: st.m[k][i] == 0.0
    ensures r.Err? ==> r == Err(IndexOutOfBounds) || r == Err(AllZeroColumn)
    ensures r.Ok? ==> IsMatrix(r.value.m) && |r.value.m| == |st.m| && Cols(r.value.m) == Cols(st.m)
    ensures r.Ok? ==> r.value.m[i][i] == 1.0 && forall k | i < k < |st.m| :: r.value.m[k][i] == 0.0
    ensures r.Ok? ==> |st.moves| <= |r.value.moves| && r.value.moves[..|st.moves|] == st.moves
    ensures r.Ok? ==> forall k | |st.moves| <= k < |r.value.moves| :: ForwardMove(r.value.moves[k], i) && Fits(r.value.moves[k], |st.m|)
  {
    if i >= Cols(st.m) then Err(IndexOutOfBounds)
    else
      match PivotRow(st.m, i, search)
      case None => Err(AllZeroColumn)
      case Some(ti) => Ok(PivotStep(st, i, ti))
  }

  /** With pivot row ti found for column i: swap it into row i, scale the pivot to 1, clear below it. */
  function PivotStep(st: State, i: nat, ti: nat): (r: State)
    requires IsMatrix(st.m) && i < |st.m| && i < Cols(st.m) && ti < |st.m| && st.m[ti][i] != 0.0
    ensures IsMatrix(r.m) && |r.m| == |st.m| && Cols(r.m) == Cols(st.m)
    ensures r.m[i][i] == 1.0 && forall k | i < k < |st.m| :: r.m[k][i] == 0.0
    ensures |st.moves| <= |r.moves| && r.moves[..|st.moves|] == st.moves
    ensures forall k | |st.moves| <= k < |r.moves| :: ForwardMove(r.moves[k], i) && Fits(r.moves[k], |st.m|)
  {
    var swapped := SwapInto(st, i, ti);
    var scaled := ScaleToOne(swapped, i);
    var r := EliminateBelow(scaled, i, i + 1);
    assert r.moves[..|st.moves|] == st.moves by {
      assert r.moves[..|st.moves|] == r.moves[..|scaled.moves|][..|st.moves|];
      assert scaled.moves[..|st.moves|] == scaled.moves[..|swapped.moves|][..|st.moves|];
    }
    r
  }

  /** A move the forward pass can record, at whatever pivot column. */
  predicate IsForwardMove(mv: Move) {
    match mv
    case Swap(r1, r2) => r1 != r2
    case Scale(s, _) => s != 0.0 && s != 1.0
    case Add(s, r1, r2) => r1 < r2 && s != 0.0
  }

  /** The forward pass from pivot column i to the last row. */
  function ForwardFrom(st: State, i: nat, search: Search): (r: Result<State>)
    requires IsMatrix(st.m) && i <= |st.m|
    ensures r.Err? ==> r.error in {IndexOutOfBounds, AllZeroColumn}
    ensures r.Ok? ==> IsMatrix(r.value.m) && |r.value.m| == |st.m| && Cols(r.value.m) == Cols(st.m)
    ensures r.Ok? ==> |st.moves| <= |r.value.moves| && r.value.moves[..|st.moves|] == st.moves
    ensures r.Ok? ==> forall k | |st.moves| <= k < |r.value.moves| :: IsForwardMove(r.value.moves[k]) && Fits(r.value.moves[k], |st.m|)
    ensures r.Ok? && i < |st.m| ==> |st.m| <= Cols(st.m)
    decreases |st.m| - i
  {
    if i == |st.m| then Ok(st)
    else
      match ForwardStep(st, i, search)
      case Err(e) => Err(e)
      case Ok(next) =>
        var r := ForwardFrom(next, i + 1, search);
        assert i < Cols(st.m);
        if r.Ok? then
          ForwardMovesJoin(st.moves, next.moves, r.value.moves, i, |st.m|);
          r
        else r
  }

  /** Step i's forward moves followed by later forward moves extend the trace by forward moves. */
  lemma ForwardMovesJoin(s: seq<Move>, t: seq<Move>, u: seq<Move>, i: nat, rows: nat)
    requires |s| <= |t| && t[..|s|] == s && forall k | |s| <= k < |t| :: ForwardMove(t[k], i) && Fits(t[k], rows)
    requires |t| <= |u| && u[..|t|] == t && forall k | |t| <= k < |u| :: IsForwardMove(u[k]) && Fits(u[k], rows)
    ensures |s| <= |u| && u[..|s|] == s
    ensures forall k | |s| <= k < |u| :: IsForwardMove(u[k]) && Fits(u[k], rows)
  {
    assert u[..|s|] == u[..|t|][..|s|];
    forall k | |s| <= k < |t|
      ensures IsForwardMove(u[k]) && Fits(u[k], rows)
    {
      assert u[k] == u[..|t|][k] == t[k];
    }
  }

  /** A successful step at pivot i hands the rest of the pass to pivot i + 1. */
  lemma ForwardFromStep(st: State, i: nat, search: Search)
    requires IsMatrix(st.m) && i < |st.m| && ForwardStep(st, i, search).Ok?
    ensures ForwardFrom(st, i, search) == ForwardFrom(ForwardStep(st, i, search).value, i + 1, search)
  {
  }

  lemma {:induction false} EliminateBelowTracks(a: Grid, st: State, i: nat, ri: nat)
    requires Tracks(a, st) && i < Cols(st.m) && i < ri <= |st.m|
    ensures Tracks(a, EliminateBelow(st, i, ri))
    decreases |st.m| - ri, 1
  {
    if ri < |st.m| {
      if st.m[ri][i] != 0.0 {
        EliminateAddTracks(a, st, i, ri);
      } else {
        EliminateBelowTracks(a, st, i, ri + 1);
        EliminateBelowSkip(st, i, ri);
      }
    }
  }

  /** Row ri has a nonzero entry in column i: the recorded add keeps the trace in step. */
  lemma {:induction false} EliminateAddTracks(a: Grid, st: State, i: nat, ri: nat)
    requires Tracks(a, st) && i < Cols(st.m) && i < ri < |st.m| && st.m[ri][i] != 0.0
    ensures Tracks(a, EliminateBelow(st, i, ri))
    decreases |st.m| - ri, 0
  {
    var mv := Add(-st.m[ri][i], i, ri);
    RecordTracks(a, st, mv);
    EliminateBelowTracks(a, Record(st, mv), i, ri + 1);
    EliminateBelowAdd(st, i, ri);
  }

  lemma EliminateBelowSkip(st: State, i: nat, ri: nat)
    requires IsMatrix(st.m) && i < Cols(st.m) && i < ri < |st.m| && st.m[ri][i] == 0.0
    ensures EliminateBelow(st, i, ri) == EliminateBelow(st, i, ri + 1)
  {
  }

  lemma EliminateBelowAdd(st: State, i: nat, ri: nat)
    requires IsMatrix(st.m) && i < Cols(st.m) && i < ri < |st.m| && st.m[ri][i] != 0.0
    ensures EliminateBelow(st, i, ri) == EliminateBelow(Record(st, Add(-st.m[ri][i], i, ri)), i, ri + 1)
  {
  }

  lemma ForwardStepTracks(a: Grid, st: State, i: nat, search: Search)
    requires Tracks(a, st) && i < |st.m| && ForwardStep(st, i, search).Ok?
    ensures Tracks(a, ForwardStep(st, i, search).value)
  {
    var ti := PivotRow(st.m, i, search).value;
    var swapped := SwapInto(st, i, ti);
    SwapIntoTracks(a, st, i, ti);
    ScaleToOneTracks(a, swapped, i);
    EliminateBelowTracks(a, ScaleToOne(swapped, i), i, i + 1);
    assert ForwardStep(st, i, search).value == EliminateBelow(ScaleToOne(swapped, i), i, i + 1);
  }

  lemma SwapIntoTracks(a: Grid, st: State, i: nat, ti: nat)
    requires Tracks(a, st) && i < |st.m| && ti < |st.m|
    ensures Tracks(a, SwapInto(st, i, ti))
  {
    if ti != i {
      RecordTracks(a, st, Swap(i, ti));
    }
  }

  lemma ScaleToOneTracks(a: Grid, st: State, i: nat)
    requires Tracks(a, st) && i < |st.m| && i < Cols(st.m) && st.m[i][i] != 0.0
    ensures Tracks(a, ScaleToOne(st, i))
  {
    var tv := st.m[i][i];
    if tv != 1.0 {
      RecordTracks(a, st, Scale(1.0 / tv, i));
    }
  }

  lemma {:induction false} ForwardFromTracks(a: Grid, st: State, i: nat, search: Search)
    requires Tracks(a, st) && i <= |st.m| && ForwardFrom(st, i, search).Ok?
    ensures Tracks(a, ForwardFrom(st, i, search).value)
    decreases |st.m| - i
  {
    if i < |st.m| {
      ForwardStepTracks(a, st, i, search);
      ForwardFromTracks(a, ForwardStep(st, i, search).value, i + 1, search);
    }
  }

  // ------------------------------------------------------------------
  // Classification and the forward reducer
  // ------------------------------------------------------------------

  /** A classification agrees with the predicate it names. */
  predicate Agrees(res: ReductionResult) {
    match res.resultType
    case PARAMETRIC => HasZeroRow(res.matrix)
    case REDUCED_ROW_ECHELON => IsReducedEchelonForm(res.matrix)
    case ROW_ECHELON => IsEchelonForm(res.matrix)
  }

  /** The checks after the forward pass: a zero row, then reduced, then echelon, else failure. */
  function Classify(m: Grid, moves: seq<Move>): (r: Result<ReductionResult>)
    ensures r.Ok? ==> Agrees(r.value) && r.value.matrix == m && r.value.trace == moves
    ensures r.Err? <==> !HasZeroRow(m) && !IsEchelonForm(m)
    ensures r.Err? ==> r == Err(ReductionFailed)
  {
    if HasZeroRow(m) then Ok(ReductionResult(m, moves, PARAMETRIC))
    else if IsReducedEchelonForm(m) then Ok(ReductionResult(m, moves, REDUCED_ROW_ECHELON))
    else if IsEchelonForm(m) then Ok(ReductionResult(m, moves, ROW_ECHELON))
    else Err(ReductionFailed)
  }

  /** `reduceMatrixToEchelon`: fast paths, then the forward pass, then classification. */
  function ReduceToEchelon(a: Grid): (r: Result<ReductionResult>)
    requires IsMatrix(a)
    ensures r.Err? ==> r.error in {IndexOutOfBounds, AllZeroColumn, ReductionFailed}
    ensures r.Ok? ==> IsMatrix(r.value.matrix) && |r.value.matrix| == |a| && Cols(r.value.matrix) == Cols(a)
    ensures r.Ok? ==> forall k | 0 <= k < |r.value.trace| :: IsForwardMove(r.value.trace[k]) && Fits(r.value.trace[k], |a|)
    ensures r.Ok? ==> Agrees(r.value)
  {
    if HasZeroRow(a) then Ok(ReductionResult(a, [], PARAMETRIC))
    else if IsReducedEchelonForm(a) then Ok(ReductionResult(a, [], REDUCED_ROW_ECHELON))
    else if IsEchelonForm(a) then Ok(ReductionResult(a, [], ROW_ECHELON))
    else
      match ForwardFrom(State(a, []), 0, FromTop)
      case Err(e) => Err(e)
      case Ok(st) => Classify(st.m, st.moves)
  }

  /**
   * What a forward reduction guarantees: its trace replayed on the input
   * gives its matrix, its moves are forward moves on rows of the input, its
   * classification agrees with its predicate, and anything but PARAMETRIC is
   * in echelon form. The only failures are the three exceptions.
   */
  lemma EchelonResult(a: Grid)
    requires IsMatrix(a)
    ensures ReduceToEchelon(a).Ok? ==> (var res := ReduceToEchelon(a).value;
      && Tracks(a, State(res.matrix, res.trace))
      && (res.resultType != PARAMETRIC ==> IsEchelonForm(res.matrix) && !HasZeroRow(res.matrix))
      && (!HasZeroRow(a) ==> |a| <= Cols(a)))
  {
    if !HasZeroRow(a) && IsEchelonForm(a) && |a| > Cols(a) {
      TallEchelonHasZeroRow(a);
    }
    if !HasZeroRow(a) && !IsEchelonForm(a) {
      var f := ForwardFrom(State(a, []), 0, FromTop);
      assert Tracks(a, State(a, []));
      if f.Ok? {
        ForwardFromTracks(a, State(a, []), 0, FromTop);
      }
    }
  }

  /** The fast paths: checked in this order, each with an empty trace. */
  lemma EchelonFastPaths(a: Grid)
    requires IsMatrix(a)
    ensures HasZeroRow(a) ==> ReduceToEchelon(a) == Ok(ReductionResult(a, [], PARAMETRIC))
    ensures !HasZeroRow(a) && IsReducedEchelonForm(a) ==> ReduceToEchelon(a) == Ok(ReductionResult(a, [], REDUCED_ROW_ECHELON))
    ensures !HasZeroRow(a) && !IsReducedEchelonForm(a) && IsEchelonForm(a) ==> ReduceToEchelon(a) == Ok(ReductionResult(a, [], ROW_ECHELON))
  {
  }

  // ------------------------------------------------------------------
  // Backward elimination
  // ------------------------------------------------------------------

  /**
   * Clearing row i from column j on: each nonzero off-diagonal entry (i, c)
   * is cleared by adding -v times row c, which fails when c is not a row.
   */
  function BackwardRow(st: State, i: nat, j: nat): (r: Result<State>)
    requires IsMatrix(st.m) && i < |st.m| && j <= Cols(st.m)
    ensures r.Err? ==> r == Err(IndexOutOfBounds)
    ensures r.Ok? ==> IsMatrix(r.value.m) && |r.value.m| == |st.m| && Cols(r.value.m) == Cols(st.m)
    ensures r.Ok? ==> |st.moves| <= |r.value.moves| && r.value.moves[..|st.moves|] == st.moves
    ensures r.Ok? ==> forall k | |st.moves| <= k < |r.value.moves| :: BackwardMove(r.value.moves[k], i) && Fits(r.value.moves[k], |st.m|)
    decreases Cols(st.m) - j
  {
    if j == Cols(st.m) then Ok(st)
    else
      var v := st.m[i][j];
      if i != j && v != 0.0 then
        if j >= |st.m| then Err(IndexOutOfBounds)
        else
          var next := Record(st, Add(-v, j, i));
          var r := BackwardRow(next, i, j + 1);
          assert r.Ok? ==> r.value.moves[..|st.moves|] == next.moves[..|st.moves|];
          r
      else BackwardRow(st, i, j + 1)
  }

  /** The backward pass from row i to the last row. */
  function BackwardFrom(st: State, i: nat): (r: Result<State>)
    requires IsMatrix(st.m) && i <= |st.m|
    ensures r.Err? ==> r == Err(IndexOutOfBounds)
    ensures r.Ok? ==> IsMatrix(r.value.m) && |r.value.m| == |st.m| && Cols(r.value.m) == Cols(st.m)
    ensures r.Ok? ==> |st.moves| <= |r.value.moves| && r.value.moves[..|st.moves|] == st.moves
    ensures r.Ok? ==> forall k | |st.moves| <= k < |r.value.moves| :: r.value.moves[k].Add? && WellFormed(r.value.moves[k]) && Fits(r.value.moves[k], |st.m|)
    decreases |st.m| - i
  {
    if i == |st.m| then Ok(st)
    else
      match BackwardRow(st, i, 0)
      case Err(e) => Err(e)
      case Ok(next) =>
        var r := BackwardFrom(next, i + 1);
        assert r.Ok? ==> r.value.moves[..|st.moves|] == next.moves[..|st.moves|];
        r
  }

  lemma {:induction false} BackwardRowTracks(a: Grid, st: State, i: nat, j: nat)
    requires Tracks(a, st) && i < |st.m| && j <= Cols(st.m) && BackwardRow(st, i, j).Ok?
    ensures Tracks(a, BackwardRow(st, i, j).value)
    decreases Cols(st.m) - j, 1
  {
    if j < Cols(st.m) {
      if i != j && st.m[i][j] != 0.0 {
        BackwardAddTracks(a, st, i, j);
      } else {
        BackwardRowTracks(a, st, i, j + 1);
      }
    }
  }

  /** Entry (i, j) is nonzero: the recorded add keeps the trace in step. */
  lemma {:induction false} BackwardAddTracks(a: Grid, st: State, i: nat, j: nat)
    requires Tracks(a, st) && i < |st.m| && j < Cols(st.m) && BackwardRow(st, i, j).Ok?
    requires i != j && st.m[i][j] != 0.0
    ensures Tracks(a, BackwardRow(st, i, j).value)
    decreases Cols(st.m) - j, 0
  {
    var mv := Add(-st.m[i][j], j, i);
    assert j < |st.m|;
    BackwardRowAdd(st, i, j);
    RecordTracks(a, st, mv);
    BackwardRowTracks(a, Record(st, mv), i, j + 1);
  }

  lemma BackwardRowAdd(st: State, i: nat, j: nat)
    requires IsMatrix(st.m) && i < |st.m| && j < Cols(st.m) && i != j && st.m[i][j] != 0.0 && j < |st.m|
    ensures BackwardRow(st, i, j) == BackwardRow(Record(st, Add(-st.m[i][j], j, i)), i, j + 1)
  {
  }

  lemma {:induction false} BackwardFromTracks(a: Grid, st: State, i: nat)
    requires Tracks(a, st) && i <= |st.m| && BackwardFrom(st, i).Ok?
    ensures Tracks(a, BackwardFrom(st, i).value)
    decreases |st.m| - i
  {
    if i < |st.m| {
      BackwardRowTracks(a, st, i, 0);
      BackwardFromTracks(a, BackwardRow(st, i, 0).value, i + 1);
    }
  }

  /**
   * `reduceMatrixToReducedEchelonForm`: the zero-row and reduced fast
   * paths, then the forward reduction (returned as it is when its matrix is
   * already reduced), then the backward pass, which must end reduced.
   */
  function ReduceToReducedEchelon(a: Grid): (r: Result<ReductionResult>)
    requires IsMatrix(a)
    ensures r.Err? ==> r.error in {IndexOutOfBounds, AllZeroColumn, ReductionFailed}
    ensures r.Ok? ==> IsMatrix(r.value.matrix) && |r.value.matrix| == |a| && Cols(r.value.matrix) == Cols(a)
    ensures r.Ok? ==> GoodTrace(r.value.trace, |a|)
  {
    if HasZeroRow(a) then Ok(ReductionResult(a, [], PARAMETRIC))
    else if IsReducedEchelonForm(a) then Ok(ReductionResult(a, [], REDUCED_ROW_ECHELON))
    else
      match ReduceToEchelon(a)
      case Err(e) => Err(e)
      case Ok(echelon) =>
        if IsReducedEchelonForm(echelon.matrix) then
          BackwardMovesJoin(echelon.trace, echelon.trace, |a|);
          Ok(echelon)
        else
          match BackwardFrom(State(echelon.matrix, echelon.trace), 0)
          case Err(e) => Err(e)
          case Ok(st) =>
            BackwardMovesJoin(echelon.trace, st.moves, |a|);
            if IsReducedEchelonForm(st.m) then Ok(ReductionResult(st.m, st.moves, REDUCED_ROW_ECHELON))
            else Err(ReductionFailed)
  }

  /** A forward trace extended by well-formed adds is a good trace. */
  lemma BackwardMovesJoin(t: seq<Move>, u: seq<Move>, rows: nat)
    requires forall k | 0 <= k < |t| :: IsForwardMove(t[k]) && Fits(t[k], rows)
    requires |t| <= |u| && u[..|t|] == t
    requires forall k | |t| <= k < |u| :: u[k].Add? && WellFormed(u[k]) && Fits(u[k], rows)
    ensures GoodTrace(u, rows)
  {
    forall k | 0 <= k < |t|
      ensures WellFormed(u[k]) && Fits(u[k], rows)
    {
      assert u[k] == u[..|t|][k] == t[k];
    }
  }

  /** An echelon result whose matrix is reduced is classified REDUCED_ROW_ECHELON, unless the input had a zero row. */
  lemma ReducedEchelonClassified(a: Grid)
    requires IsMatrix(a) && !HasZeroRow(a) && ReduceToEchelon(a).Ok?
    requires IsReducedEchelonForm(ReduceToEchelon(a).value.matrix)
    ensures ReduceToEchelon(a).value.resultType == REDUCED_ROW_ECHELON
  {
    if !IsEchelonForm(a) {
      var st := ForwardFrom(State(a, []), 0, FromTop).value;
      if HasZeroRow(st.m) {
        ZeroRowNotEchelon(st.m);
      }
    }
  }

  /** The backward pass over a forward result that is not yet reduced. */
  lemma BackwardPathResult(a: Grid)
    requires IsMatrix(a) && !HasZeroRow(a) && !IsReducedEchelonForm(a) && ReduceToEchelon(a).Ok?
    requires !IsReducedEchelonForm(ReduceToEchelon(a).value.matrix)
    ensures (var echelon := ReduceToEchelon(a).value;
      Tracks(a, State(echelon.matrix, echelon.trace)) &&
      (var b := BackwardFrom(State(echelon.matrix, echelon.trace), 0);
       b.Ok? ==>
         && Tracks(a, b.value)
         && GoodTrace(b.value.moves, |a|)
         && |echelon.trace| <= |b.value.moves| && b.value.moves[..|echelon.trace|] == echelon.trace
         && (IsReducedEchelonForm(b.value.m) ==> |a| <= Cols(a) && !HasZeroRow(b.value.m))))
  {
    var echelon := ReduceToEchelon(a).value;
    EchelonResult(a);
    var start := State(echelon.matrix, echelon.trace);
    if BackwardFrom(start, 0).Ok? {
      BackwardFromTracks(a, start, 0);
      var st := BackwardFrom(start, 0).value;
      if IsReducedEchelonForm(st.m) && HasZeroRow(st.m) {
        ZeroRowNotEchelon(st.m);
      }
      forall k | 0 <= k < |st.moves| ensures WellFormed(st.moves[k]) {
        if k < |echelon.trace| {
          assert st.moves[k] == echelon.trace[k];
        }
      }
    }
  }

  /**
   * What a reduced reduction guarantees about its trace: replayed on the
   * input it gives the result matrix, every move is well formed, and past
   * the fast paths the forward reduction succeeded and its trace is a
   * prefix of this one.
   */
  lemma ReducedTrace(a: Grid)
    requires IsMatrix(a)
    ensures ReduceToReducedEchelon(a).Ok? ==> (var res := ReduceToReducedEchelon(a).value;
      && Tracks(a, State(res.matrix, res.trace))
      && GoodTrace(res.trace, |a|)
      && (!HasZeroRow(a) && !IsReducedEchelonForm(a) ==>
            ReduceToEchelon(a).Ok? && |ReduceToEchelon(a).value.trace| <= |res.trace|
            && res.trace[..|ReduceToEchelon(a).value.trace|] == ReduceToEchelon(a).value.trace))
  {
    if !HasZeroRow(a) && !IsReducedEchelonForm(a) && ReduceToEchelon(a).Ok? {
      EchelonResult(a);
      if !IsReducedEchelonForm(ReduceToEchelon(a).value.matrix) {
        BackwardPathResult(a);
      }
    }
  }

  /**
   * What a reduced reduction guarantees about its classification: PARAMETRIC comes only from the
   * zero-row fast path (input returned, empty trace); any other result is
   * REDUCED_ROW_ECHELON, reduced, without a zero row, and the input has no
   * more rows than columns. The two fast paths always succeed: a zero row
   * gives PARAMETRIC, and an input already reduced comes back unchanged as
   * REDUCED_ROW_ECHELON, both with an empty trace.
   */
  lemma ReducedResult(a: Grid)
    requires IsMatrix(a)
    ensures HasZeroRow(a) ==> ReduceToReducedEchelon(a) == Ok(ReductionResult(a, [], PARAMETRIC))
    ensures !HasZeroRow(a) && IsReducedEchelonForm(a) ==>
      ReduceToReducedEchelon(a) == Ok(ReductionResult(a, [], REDUCED_ROW_ECHELON))
    ensures ReduceToReducedEchelon(a).Ok? ==> (var res := ReduceToReducedEchelon(a).value;
      && (res.resultType == PARAMETRIC <==> HasZeroRow(a))
      && (res.resultType == PARAMETRIC ==> res.matrix == a && res.trace == [])
      && (res.resultType != PARAMETRIC ==> res.resultType == REDUCED_ROW_ECHELON && IsReducedEchelonForm(res.matrix))
      && (res.resultType != PARAMETRIC ==> |a| <= Cols(a) && !HasZeroRow(res.matrix)))
  {
    EchelonResult(a);
    if !HasZeroRow(a) && IsReducedEchelonForm(a) && |a| > Cols(a) {
      TallEchelonHasZeroRow(a);
    }
    if !HasZeroRow(a) && !IsReducedEchelonForm(a) && ReduceToEchelon(a).Ok? {
      if IsReducedEchelonForm(ReduceToEchelon(a).value.matrix) {
        ReducedEchelonClassified(a);
      } else {
        BackwardPathResult(a);
      }
    }
  }

  // ------------------------------------------------------------------
  // The pivot search from the top
  // ------------------------------------------------------------------

  /** Columns 0..i-1 are finished: 1 on the diagonal and 0 below it. */
  predicate EchelonUpTo(m: Grid, i: nat) {
    forall k, c | 0 <= k < |m| && 0 <= c < i && c < |m[k]| :: (k == c ==> m[k][c] == 1.0) && (k > c ==> m[k][c] == 0.0)
  }

  /** With the search starting at the pivot row, a forward step finishes column i and keeps columns 0..i-1. */
  lemma ForwardStepFromPivot(st: State, i: nat)
    requires IsMatrix(st.m) && i < |st.m| && EchelonUpTo(st.m, i) && ForwardStep(st, i, FromPivot).Ok?
    ensures EchelonUpTo(ForwardStep(st, i, FromPivot).value.m, i + 1)
  {
    var ti := PivotRow(st.m, i, FromPivot).value;
    var swapped := SwapInto(st, i, ti);
    assert EchelonUpTo(swapped.m, i);
    var scaled := ScaleToOne(swapped, i);
    assert EchelonUpTo(scaled.m, i);
    var r := EliminateBelow(scaled, i, i + 1);
    forall k, c | 0 <= k < |r.m| && 0 <= c < i && c < |r.m[k]|
      ensures (k == c ==> r.m[k][c] == 1.0) && (k > c ==> r.m[k][c] == 0.0)
    {
      assert |r.m[k]| == Cols(st.m) == |scaled.m[k]| == |scaled.m[i]|;
      if k <= i {
        assert r.m[k] == scaled.m[k];
      } else {
        assert scaled.m[i][c] == 0.0;
      }
    }
  }

  /** The corrected forward pass: every column it finishes stays finished, so it ends in echelon form. */
  lemma {:induction false} ForwardFromPivotIsEchelon(st: State, i: nat)
    requires IsMatrix(st.m) && i <= |st.m| && EchelonUpTo(st.m, i)
    ensures ForwardFrom(st, i, FromPivot).Ok? ==> IsEchelonForm(ForwardFrom(st, i, FromPivot).value.m)
    decreases |st.m| - i
  {
    if i == |st.m| {
      assert IsEchelonForm(st.m);
    } else if ForwardStep(st, i, FromPivot).Ok? {
      ForwardStepFromPivot(st, i);
      ForwardFromPivotIsEchelon(ForwardStep(st, i, FromPivot).value, i + 1);
    }
  }

  /**
   * With the search starting at the pivot row, a successful forward pass
   * always classifies: it never ends in "Reduction failed".
   */
  lemma CorrectedForwardClassifies(a: Grid)
    requires IsMatrix(a)
    ensures ForwardFrom(State(a, []), 0, FromPivot).Ok? ==>
      (var st := ForwardFrom(State(a, []), 0, FromPivot).value;
       IsEchelonForm(st.m) && Classify(st.m, st.moves).Ok?)
  {
    ForwardFromPivotIsEchelon(State(a, []), 0);
  }

  /** An invertible 3x3 matrix on which the search from the top swaps a finished row back down. */
  const UpwardSwapExample: Grid := [[1.0, 1.0, 0.0], [1.0, 1.0, 1.0], [0.0, 1.0, 0.0]]

  /** The left inverse of UpwardSwapExample. */
  lemma UpwardSwapExampleInvertible()
    ensures IsMatrix(UpwardSwapExample) && Cols(UpwardSwapExample) == 3
    ensures Product([[1.0, 0.0, -1.0], [0.0, 0.0, 1.0], [-1.0, 1.0, 0.0]], UpwardSwapExample) == Identity(3, 3)
  {
    var b: Grid := [[1.0, 0.0, -1.0], [0.0, 0.0, 1.0], [-1.0, 1.0, 0.0]];
    var p := Product(b, UpwardSwapExample);
    var id := Identity(3, 3);
    forall i | 0 <= i < 3 ensures p[i] == id[i] {
      forall j | 0 <= j < 3 ensures p[i][j] == id[i][j] {
        assert p[i][j] == DotColumn(b[i], UpwardSwapExample, j, 3);
      }
    }
  }

  /** The library's forward pass on UpwardSwapExample, move by move. */
  lemma UpwardSwapForward()
    ensures IsMatrix(UpwardSwapExample)
    ensures ForwardFrom(State(UpwardSwapExample, []), 0, FromTop)
      == Ok(State([[-1.0, 0.0, 0.0], [1.0, 1.0, 0.0], [0.0, 0.0, 1.0]],
                  [Add(-1.0, 0, 1), Swap(1, 0), Add(-1.0, 1, 2), Swap(2, 0)]))
  {
    var s1 := State([[1.0, 1.0, 0.0], [0.0, 0.0, 1.0], [0.0, 1.0, 0.0]], [Add(-1.0, 0, 1)]);
    var s2 := State([[0.0, 0.0, 1.0], [1.0, 1.0, 0.0], [-1.0, 0.0, 0.0]], [Add(-1.0, 0, 1), Swap(1, 0), Add(-1.0, 1, 2)]);
    var s3 := State([[-1.0, 0.0, 0.0], [1.0, 1.0, 0.0], [0.0, 0.0, 1.0]], [Add(-1.0, 0, 1), Swap(1, 0), Add(-1.0, 1, 2), Swap(2, 0)]);
    UpwardStep0();
    assert ForwardFrom(State(UpwardSwapExample, []), 0, FromTop) == ForwardFrom(s1, 1, FromTop);
    UpwardStep1();
    assert ForwardFrom(s1, 1, FromTop) == ForwardFrom(s2, 2, FromTop);
    UpwardStep2();
    assert ForwardFrom(s2, 2, FromTop) == ForwardFrom(s3, 3, FromTop) == Ok(s3);
  }

  /**
   * The library's reducer on UpwardSwapExample: column 1 takes its pivot
   * from row 0 and column 2 takes its pivot from row 0 again, so the
   * forward pass ends in [[-1,0,0],[1,1,0],[0,0,1]], which is neither
   * echelon nor reduced, and the reduction fails although the matrix is
   * invertible.
   */
  lemma UpwardSwapFails()
    ensures IsMatrix(UpwardSwapExample)
    ensures ReduceToEchelon(UpwardSwapExample) == Err(ReductionFailed)
  {
    UpwardSwapForward();
    UpwardSwapNoFastPath();
    UpwardSwapUnclassified();
  }

  lemma UpwardSwapNoFastPath()
    ensures !HasZeroRow(UpwardSwapExample) && !IsReducedEchelonForm(UpwardSwapExample) && !IsEchelonForm(UpwardSwapExample)
  {
    var a := UpwardSwapExample;
    assert a[0][0] != 0.0 && a[1][0] != 0.0 && a[2][1] != 0.0;
    assert !IsZeroRow(a[0]) && !IsZeroRow(a[1]) && !IsZeroRow(a[2]);
  }

  lemma UpwardSwapUnclassified()
    ensures Classify([[-1.0, 0.0, 0.0], [1.0, 1.0, 0.0], [0.0, 0.0, 1.0]],
                     [Add(-1.0, 0, 1), Swap(1, 0), Add(-1.0, 1, 2), Swap(2, 0)]) == Err(ReductionFailed)
  {
    var m3: Grid := [[-1.0, 0.0, 0.0], [1.0, 1.0, 0.0], [0.0, 0.0, 1.0]];
    assert m3[0][0] != 0.0 && m3[1][0] != 0.0 && m3[2][2] != 0.0;
    assert !IsZeroRow(m3[0]) && !IsZeroRow(m3[1]) && !IsZeroRow(m3[2]);
    assert m3[0][0] != 1.0;
  }

  lemma UpwardStep0()
    ensures ForwardStep(State(UpwardSwapExample, []), 0, FromTop)
      == Ok(State([[1.0, 1.0, 0.0], [0.0, 0.0, 1.0], [0.0, 1.0, 0.0]], [Add(-1.0, 0, 1)]))
  {
    var st := State(UpwardSwapExample, []);
    assert PivotRow(st.m, 0, FromTop) == Some(0);
    var next := Record(st, Add(-1.0, 0, 1));
    assert next.m[1] == [0.0, 0.0, 1.0] by {
      assert |next.m[1]| == 3;
    }
    assert next.m == [[1.0, 1.0, 0.0], [0.0, 0.0, 1.0], [0.0, 1.0, 0.0]];
    assert EliminateBelow(st, 0, 1) == EliminateBelow(next, 0, 2) == next;
  }

  lemma UpwardStep1()
    ensures ForwardStep(State([[1.0, 1.0, 0.0], [0.0, 0.0, 1.0], [0.0, 1.0, 0.0]], [Add(-1.0, 0, 1)]), 1, FromTop)
      == Ok(State([[0.0, 0.0, 1.0], [1.0, 1.0, 0.0], [-1.0, 0.0, 0.0]], [Add(-1.0, 0, 1), Swap(1, 0), Add(-1.0, 1, 2)]))
  {
    var st := State([[1.0, 1.0, 0.0], [0.0, 0.0, 1.0], [0.0, 1.0, 0.0]], [Add(-1.0, 0, 1)]);
    assert FirstNonzeroRow(st.m, 1, 0) == Some(0);
    assert PivotRow(st.m, 1, FromTop) == Some(0);
    var swapped := Record(st, Swap(1, 0));
    assert SwapInto(st, 1, 0) == swapped;
    assert swapped.m == [[0.0, 0.0, 1.0], [1.0, 1.0, 0.0], [0.0, 1.0, 0.0]];
    assert ScaleToOne(swapped, 1) == swapped;
    var next := Record(swapped, Add(-1.0, 1, 2));
    assert next.m[2] == [-1.0, 0.0, 0.0] by {
      assert |next.m[2]| == 3;
    }
    assert next.m == [[0.0, 0.0, 1.0], [1.0, 1.0, 0.0], [-1.0, 0.0, 0.0]];
    assert EliminateBelow(swapped, 1, 2) == EliminateBelow(next, 1, 3) == next;
    assert next.moves == [Add(-1.0, 0, 1), Swap(1, 0), Add(-1.0, 1, 2)];
  }

  lemma UpwardStep2()
    ensures ForwardStep(State([[0.0, 0.0, 1.0], [1.0, 1.0, 0.0], [-1.0, 0.0, 0.0]], [Add(-1.0, 0, 1), Swap(1, 0), Add(-1.0, 1, 2)]), 2, FromTop)
      == Ok(State([[-1.0, 0.0, 0.0], [1.0, 1.0, 0.0], [0.0, 0.0, 1.0]], [Add(-1.0, 0, 1), Swap(1, 0), Add(-1.0, 1, 2), Swap(2, 0)]))
  {
    var st := State([[0.0, 0.0, 1.0], [1.0, 1.0, 0.0], [-1.0, 0.0, 0.0]], [Add(-1.0, 0, 1), Swap(1, 0), Add(-1.0, 1, 2)]);
    assert FirstNonzeroRow(st.m, 2, 0) == Some(0);
    assert PivotRow(st.m, 2, FromTop) == Some(0);
    var swapped := Record(st, Swap(2, 0));
    assert SwapInto(st, 2, 0) == swapped;
    assert swapped.m == [[-1.0, 0.0, 0.0], [1.0, 1.0, 0.0], [0.0, 0.0, 1.0]];
    assert ScaleToOne(swapped, 2) == swapped;
    assert EliminateBelow(swapped, 2, 3) == swapped;
    assert swapped.moves == [Add(-1.0, 0, 1), Swap(1, 0), Add(-1.0, 1, 2), Swap(2, 0)];
  }

  // ------------------------------------------------------------------
  // The reducers as the library runs them
  // ------------------------------------------------------------------

  /** The body of the forward loop for pivot column i: pivot search, swap, scale, then the elimination loop. */
  method ForwardColumn(m0: Grid, moves0: seq<Move>, i: nat) returns (r: Result<State>)
    requires IsMatrix(m0) && i < |m0|
    ensures r == ForwardStep(State(m0, moves0), i, FromTop)
  {
    if i >= Cols(m0) {
      return Err(IndexOutOfBounds);
    }
    var m, moves := m0, moves0;
    var v := m[i][i];
    var ti := i;
    var tv := v;
    if v == 0.0 {
      var found := FirstNonzeroRow(m, i, 0);
      if found.None? {
        return Err(AllZeroColumn);
      }
      ti := found.value;
      tv := m[ti][i];
    }
    assert PivotRow(m0, i, FromTop) == Some(ti);
    if ti != i {
      m := SwapRows(m, i, ti);
      moves := moves + [Swap(i, ti)];
    }
    ghost var swapped := State(m, moves);
    assert swapped == SwapInto(State(m0, moves0), i, ti);
    if tv != 1.0 {
      var scalar := 1.0 / tv;
      m := ScaleRow(m, i, scalar);
      moves := moves + [Scale(scalar, i)];
    }
    assert State(m, moves) == ScaleToOne(swapped, i);
    var eliminated := EliminateColumn(m, moves, i);
    return Ok(eliminated);
  }

  /**
   * The body of the elimination loop at row ri: a nonzero entry (ri, i) is
   * cleared by adding -v times pivot row i. EliminateBelow goes on from row
   * ri + 1 with the new state.
   */
  method EliminateEntry(st: State, i: nat, ri: nat) returns (r: State)
    requires IsMatrix(st.m) && i < Cols(st.m) && i < ri < |st.m|
    ensures IsMatrix(r.m) && |r.m| == |st.m| && Cols(r.m) == Cols(st.m)
    ensures EliminateBelow(st, i, ri) == EliminateBelow(r, i, ri + 1)
  {
    var rv := st.m[ri][i];
    if rv != 0.0 {
      return Record(st, Add(-rv, i, ri));
    }
    return st;
  }

  /** The elimination loop for pivot column i: clear column i below row i with multiples of row i. */
  method EliminateColumn(m0: Grid, moves0: seq<Move>, i: nat) returns (r: State)
    requires IsMatrix(m0) && i < |m0| && i < Cols(m0)
    ensures r == EliminateBelow(State(m0, moves0), i, i + 1)
  {
    var st := State(m0, moves0);
    var ri := i + 1;
    while ri < |st.m|
      invariant i + 1 <= ri <= |st.m| == |m0|
      invariant IsMatrix(st.m) && Cols(st.m) == Cols(m0)
      invariant EliminateBelow(st, i, ri) == EliminateBelow(State(m0, moves0), i, i + 1)
    {
      st := EliminateEntry(st, i, ri);
      ri := ri + 1;
    }
    return st;
  }

  /** The forward loop over the rows, starting from the input and an empty move list. */
  method ForwardPass(matrix: Grid) returns (r: Result<State>)
    requires IsMatrix(matrix)
    ensures r == ForwardFrom(State(matrix, []), 0, FromTop)
  {
    var st := State(matrix, []);
    var i := 0;
    while i < |matrix|
      invariant 0 <= i <= |matrix|
      invariant IsMatrix(st.m) && |st.m| == |matrix|
      invariant ForwardFrom(st, i, FromTop) == ForwardFrom(State(matrix, []), 0, FromTop)
    {
      var step := ForwardColumn(st.m, st.moves, i);
      if step.Err? {
        return Err(step.error);
      }
      ForwardFromStep(st, i, FromTop);
      st := step.value;
      i := i + 1;
    }
    return Ok(st);
  }

  /** `reduceMatrixToEchelon`: fast paths, the forward loop, then the final checks. */
  method ReduceMatrixToEchelon(matrix: Grid) returns (r: Result<ReductionResult>)
    requires IsMatrix(matrix)
    ensures r == ReduceToEchelon(matrix)
  {
    if HasZeroRow(matrix) {
      return Ok(ReductionResult(matrix, [], PARAMETRIC));
    }
    if IsReducedEchelonForm(matrix) {
      return Ok(ReductionResult(matrix, [], REDUCED_ROW_ECHELON));
    }
    if IsEchelonForm(matrix) {
      return Ok(ReductionResult(matrix, [], ROW_ECHELON));
    }
    var pass := ForwardPass(matrix);
    if pass.Err? {
      return Err(pass.error);
    }
    var m, moves := pass.value.m, pass.value.moves;
    if HasZeroRow(m) {
      return Ok(ReductionResult(m, moves, PARAMETRIC));
    }
    if IsReducedEchelonForm(m) {
      return Ok(ReductionResult(m, moves, REDUCED_ROW_ECHELON));
    }
    if IsEchelonForm(m) {
      return Ok(ReductionResult(m, moves, ROW_ECHELON));
    }
    return Err(ReductionFailed);
  }

  lemma BackwardRowSkip(st: State, i: nat, j: nat)
    requires IsMatrix(st.m) && i < |st.m| && j < Cols(st.m) && !(i != j && st.m[i][j] != 0.0)
    ensures BackwardRow(st, i, j) == BackwardRow(st, i, j + 1)
  {
  }

  /**
   * The body of the inner backward loop at column j: a nonzero off-diagonal
   * entry (i, j) is cleared with row j, which fails when j is not a row.
   * BackwardRow goes on from column j + 1 with the new state.
   */
  method ClearEntry(st: State, i: nat, j: nat) returns (r: Result<State>)
    requires IsMatrix(st.m) && i < |st.m| && j < Cols(st.m)
    ensures r.Err? <==> i != j && st.m[i][j] != 0.0 && j >= |st.m|
    ensures r.Ok? ==> IsMatrix(r.value.m) && |r.value.m| == |st.m| && Cols(r.value.m) == Cols(st.m)
    ensures r.Ok? ==> BackwardRow(st, i, j) == BackwardRow(r.value, i, j + 1)
    ensures r.Err? ==> r == BackwardRow(st, i, j)
  {
    var v := st.m[i][j];
    if i != j && v != 0.0 {
      if j >= |st.m| {
        return Err(IndexOutOfBounds);
      }
      BackwardRowAdd(st, i, j);
      return Ok(Record(st, Add(-v, j, i)));
    }
    BackwardRowSkip(st, i, j);
    return Ok(st);
  }

  /** The inner backward loop: clear row i column by column. */
  method ClearRow(m0: Grid, moves0: seq<Move>, i: nat) returns (r: Result<State>)
    requires IsMatrix(m0) && i < |m0|
    ensures r == BackwardRow(State(m0, moves0), i, 0)
  {
    var st := State(m0, moves0);
    var row := st.m[i];
    var j := 0;
    while j < |row|
      invariant IsMatrix(st.m) && |st.m| == |m0|
      invariant 0 <= j <= |row| == Cols(st.m) == Cols(m0)
      invariant BackwardRow(st, i, j) == BackwardRow(State(m0, moves0), i, 0)
    {
      var next := ClearEntry(st, i, j);
      if next.Err? {
        return next;
      }
      st := next.value;
      j := j + 1;
    }
    return Ok(st);
  }

  /** The backward loop over the rows, continuing a matrix and its move list. */
  method BackwardPass(m0: Grid, moves0: seq<Move>) returns (r: Result<State>)
    requires IsMatrix(m0)
    ensures r == BackwardFrom(State(m0, moves0), 0)
  {
    var st := State(m0, moves0);
    var i := 0;
    while i < |m0|
      invariant 0 <= i <= |m0|
      invariant IsMatrix(st.m) && |st.m| == |m0|
      invariant BackwardFrom(st, i) == BackwardFrom(State(m0, moves0), 0)
    {
      var step := ClearRow(st.m, st.moves, i);
      if step.Err? {
        return Err(step.error);
      }
      st := step.value;
      i := i + 1;
    }
    return Ok(st);
  }

  /**
   * `reduceMatrixToReducedEchelonForm` past its two fast paths, given what
   * the matrix's `echelonForm()` returned: the forward result as it is when
   * already reduced, else the backward pass, which must end reduced.
   */
  method ReduceFromEchelon(matrix: Grid, echelonResult: Result<ReductionResult>) returns (r: Result<ReductionResult>)
    requires IsMatrix(matrix) && !HasZeroRow(matrix) && !IsReducedEchelonForm(matrix)
    requires echelonResult == ReduceToEchelon(matrix)
    ensures r == ReduceToReducedEchelon(matrix)
  {
    if echelonResult.Err? {
      return Err(echelonResult.error);
    }
    var echelon := echelonResult.value;
    if IsReducedEchelonForm(echelon.matrix) {
      return echelonResult;
    }
    var pass := BackwardPass(echelon.matrix, echelon.trace);
    if pass.Err? {
      return Err(pass.error);
    }
    if IsReducedEchelonForm(pass.value.m) {
      return Ok(ReductionResult(pass.value.m, pass.value.moves, REDUCED_ROW_ECHELON));
    }
    return Err(ReductionFailed);
  }

  /** `reduceMatrixToReducedEchelonForm`: the fast paths, then the forward reduction and its continuation. */
  method ReduceMatrixToReducedEchelonForm(matrix: Grid) returns (r: Result<ReductionResult>)
    requires IsMatrix(matrix)
    ensures r == ReduceToReducedEchelon(matrix)
  {
    if HasZeroRow(matrix) {
      return Ok(ReductionResult(matrix, [], PARAMETRIC));
    }
    if IsReducedEchelonForm(matrix) {
      return Ok(ReductionResult(matrix, [], REDUCED_ROW_ECHELON));
    }
    var echelonResult := ReduceMatrixToEchelon(matrix);
    r := ReduceFromEchelon(matrix, echelonResult);
  }
}
