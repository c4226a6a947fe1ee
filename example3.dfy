/**
 * The 3x3 determinant-and-inverse example of src/main/java/MatrixfTest.kt,
 * [[1,1,3],[1,2,4],[1,1,2]], reduced move by move: its determinant is -1,
 * which is also its cofactor expansion, and its inverse is
 * [[0,-1,2],[-2,1,1],[1,0,-1]], which gives the identity on both sides.
 */
module ThreeByThreeExample {
  import opened Wrappers
  import opened Matrices
  import opened GaussJordan
  import opened Determinants
  import opened Cofactors

  const Example: Grid := [[1.0, 1.0, 3.0], [1.0, 2.0, 4.0], [1.0, 1.0, 2.0]]

  /** Clear column 0 below the pivot, scale the last pivot, then clear above the pivots row by row. */
  const ExampleTrace: seq<Move> :=
    [Add(-1.0, 0, 1), Add(-1.0, 0, 2), Scale(-1.0, 2), Add(-1.0, 1, 0), Add(-2.0, 2, 0), Add(-1.0, 2, 1)]

  const ExampleInverse: Grid := [[0.0, -1.0, 2.0], [-2.0, 1.0, 1.0], [1.0, 0.0, -1.0]]

  /** The state after step 0 of the forward pass: column 0 cleared below the pivot. */
  const AfterStep0: State := State([[1.0, 1.0, 3.0], [0.0, 1.0, 1.0], [0.0, 0.0, -1.0]], ExampleTrace[..2])

  /** The forward pass's result: row echelon form, not yet reduced. */
  const Echelon: State := State([[1.0, 1.0, 3.0], [0.0, 1.0, 1.0], [0.0, 0.0, 1.0]], ExampleTrace[..3])

  lemma IdentityThree()
    ensures Identity(3, 3) == [[1.0, 0.0, 0.0], [0.0, 1.0, 0.0], [0.0, 0.0, 1.0]]
  {
    var id := Identity(3, 3);
    assert id[0] == [1.0, 0.0, 0.0] && id[1] == [0.0, 1.0, 0.0] && id[2] == [0.0, 0.0, 1.0];
  }

  /** Step 0: the pivot is already 1; rows 1 and 2 each lose row 0 once. */
  lemma Step0()
    ensures ForwardStep(State(Example, []), 0, FromTop) == Ok(AfterStep0)
  {
    var st := State(Example, []);
    assert PivotRow(st.m, 0, FromTop) == Some(0);
    assert SwapInto(st, 0, 0) == st;
    assert ScaleToOne(st, 0) == st;
    var next1 := Record(st, Add(-1.0, 0, 1));
    assert next1.m[1] == [0.0, 1.0, 1.0] by {
      assert |next1.m[1]| == 3;
    }
    var next2 := Record(next1, Add(-1.0, 0, 2));
    assert next2.m[2] == [0.0, 0.0, -1.0] by {
      assert |next2.m[2]| == 3;
    }
    assert next2.m == AfterStep0.m;
    assert next2.moves == AfterStep0.moves;
    assert EliminateBelow(next2, 0, 3) == next2;
    assert EliminateBelow(next1, 0, 2) == next2;
    assert EliminateBelow(st, 0, 1) == next2;
  }

  /** Step 1: the pivot is 1 and the entry below it is already 0, so nothing is recorded. */
  lemma Step1()
    ensures ForwardStep(AfterStep0, 1, FromTop) == Ok(AfterStep0)
  {
    var st := AfterStep0;
    assert PivotRow(st.m, 1, FromTop) == Some(1);
    assert SwapInto(st, 1, 1) == st;
    assert ScaleToOne(st, 1) == st;
    assert EliminateBelow(st, 1, 3) == st;
    assert EliminateBelow(st, 1, 2) == st;
  }

  /** Step 2: the pivot -1 is scaled to 1. */
  lemma Step2()
    ensures ForwardStep(AfterStep0, 2, FromTop) == Ok(Echelon)
  {
    var st := AfterStep0;
    assert PivotRow(st.m, 2, FromTop) == Some(2);
    assert SwapInto(st, 2, 2) == st;
    var scaled := Record(st, Scale(-1.0, 2));
    assert scaled.m[2] == [0.0, 0.0, 1.0] by {
      assert |scaled.m[2]| == 3;
    }
    assert scaled.m == Echelon.m;
    assert scaled.moves == Echelon.moves;
    assert 1.0 / st.m[2][2] == -1.0;
    assert ScaleToOne(st, 2) == scaled;
    assert EliminateBelow(scaled, 2, 3) == scaled;
  }

  lemma Forward()
    ensures ForwardFrom(State(Example, []), 0, FromTop) == Ok(Echelon)
  {
    Step0();
    Step1();
    Step2();
    assert ForwardFrom(Echelon, 3, FromTop) == Ok(Echelon);
    assert ForwardFrom(AfterStep0, 2, FromTop) == Ok(Echelon);
    assert ForwardFrom(AfterStep0, 1, FromTop) == Ok(Echelon);
  }

  /** The example is neither echelon nor reduced; its forward result is echelon but not reduced. */
  lemma Shapes()
    ensures !HasZeroRow(Example) && !IsEchelonForm(Example) && !IsReducedEchelonForm(Example)
    ensures !HasZeroRow(Echelon.m) && IsEchelonForm(Echelon.m) && !IsReducedEchelonForm(Echelon.m)
  {
    var a := Example;
    assert a[0][0] != 0.0 && a[1][0] != 0.0 && a[2][0] != 0.0;
    assert !IsZeroRow(a[0]) && !IsZeroRow(a[1]) && !IsZeroRow(a[2]);
    var e := Echelon.m;
    assert e[0][0] != 0.0 && e[1][1] != 0.0 && e[2][2] != 0.0;
    assert !IsZeroRow(e[0]) && !IsZeroRow(e[1]) && !IsZeroRow(e[2]);
    assert e[0][1] != 0.0;
  }

  lemma EchelonOfExample()
    ensures ReduceToEchelon(Example) == Ok(ReductionResult(Echelon.m, Echelon.moves, ROW_ECHELON))
  {
    Shapes();
    Forward();
  }

  /** Row 0 loses row 1 and then twice row 2; row 1 loses row 2; row 2 is already clear. */
  lemma Backward()
    ensures BackwardFrom(Echelon, 0) == Ok(State(Identity(3, 3), ExampleTrace))
  {
    var st := Echelon;
    var r1 := Record(st, Add(-1.0, 1, 0));
    assert r1.m[0] == [1.0, 0.0, 2.0] by {
      assert |r1.m[0]| == 3;
    }
    var r2 := Record(r1, Add(-2.0, 2, 0));
    assert r2.m[0] == [1.0, 0.0, 0.0] by {
      assert |r2.m[0]| == 3;
    }
    assert BackwardRow(r2, 0, 3) == Ok(r2);
    assert BackwardRow(r1, 0, 2) == Ok(r2);
    assert BackwardRow(st, 0, 1) == Ok(r2);
    assert BackwardRow(st, 0, 0) == Ok(r2);
    var r3 := Record(r2, Add(-1.0, 2, 1));
    assert r3.m[1] == [0.0, 1.0, 0.0] by {
      assert |r3.m[1]| == 3;
    }
    assert BackwardRow(r3, 1, 3) == Ok(r3);
    assert BackwardRow(r2, 1, 2) == Ok(r3);
    assert BackwardRow(r2, 1, 1) == Ok(r3);
    assert BackwardRow(r2, 1, 0) == Ok(r3);
    assert BackwardRow(r3, 2, 3) == Ok(r3);
    assert BackwardRow(r3, 2, 2) == Ok(r3);
    assert BackwardRow(r3, 2, 1) == Ok(r3);
    assert BackwardRow(r3, 2, 0) == Ok(r3);
    assert BackwardFrom(r3, 3) == Ok(r3);
    assert BackwardFrom(r3, 2) == Ok(r3);
    assert BackwardFrom(r2, 1) == Ok(r3);
    IdentityThree();
    assert r3.m == Identity(3, 3);
    assert r3.moves == ExampleTrace;
  }

  lemma Reduced()
    ensures ReduceToReducedEchelon(Example) == Ok(ReductionResult(Identity(3, 3), ExampleTrace, REDUCED_ROW_ECHELON))
  {
    Shapes();
    EchelonOfExample();
    Backward();
    IdentityIsReduced(3, 3);
  }

  /** The trace replayed on the identity, one move at a time. */
  lemma ReplayOnIdentityExample()
    ensures Replay(Identity(3, 3), ExampleTrace) == ExampleInverse
  {
    var t := ExampleTrace;
    var g0 := Identity(3, 3);
    IdentityThree();
    var g1 := ApplyMove(g0, t[0]);
    assert g1[1] == [-1.0, 1.0, 0.0] by {
      assert |g1[1]| == 3;
    }
    var g2 := ApplyMove(g1, t[1]);
    assert g2[2] == [-1.0, 0.0, 1.0] by {
      assert |g2[2]| == 3;
    }
    var g3 := ApplyMove(g2, t[2]);
    assert g3[2] == [1.0, 0.0, -1.0] by {
      assert |g3[2]| == 3;
    }
    var g4 := ApplyMove(g3, t[3]);
    assert g4[0] == [2.0, -1.0, 0.0] by {
      assert |g4[0]| == 3;
    }
    var g5 := ApplyMove(g4, t[4]);
    assert g5[0] == [0.0, -1.0, 2.0] by {
      assert |g5[0]| == 3;
    }
    var g6 := ApplyMove(g5, t[5]);
    assert g6[1] == [-2.0, 1.0, 1.0] by {
      assert |g6[1]| == 3;
    }
    assert g6 == ExampleInverse;
    assert t[..1][..0] == [] && t[..2][..1] == t[..1] && t[..3][..2] == t[..2];
    assert t[..4][..3] == t[..3] && t[..5][..4] == t[..4] && t[..5] == t[..|t| - 1];
    assert Replay(g0, t[..1]) == g1;
    assert Replay(g0, t[..2]) == g2;
    assert Replay(g0, t[..3]) == g3;
    assert Replay(g0, t[..4]) == g4;
    assert Replay(g0, t[..5]) == g5;
  }

  /** The cofactor expansion of the example is -1. */
  lemma Expansion()
    ensures Det3(Example) == -1.0
  {
    assert Square3(Example);
  }

  /** `determinant()` on the example: -1, its cofactor expansion. */
  lemma Determinant()
    ensures IsMatrix(Example) && DeterminantOf(Example) == Ok(-1.0)
  {
    Reduced();
    Expansion();
    DeterminantIsCofactorExpansion3(Example);
  }

  /** `inverse()` on the example: the trace replayed on the identity. */
  lemma Inverse()
    ensures InverseOf(Example) == Ok(Some(ExampleInverse))
  {
    Determinant();
    Reduced();
    ReplayOnIdentityExample();
  }

  /**
   * The test's matrix has determinant -1, which is its cofactor expansion,
   * and inverse [[0,-1,2],[-2,1,1],[1,0,-1]]; the matrix times its inverse
   * and the inverse times the matrix are both the identity.
   */
  lemma DeterminantAndInverse()
    ensures IsMatrix(Example) && Det3(Example) == -1.0 && DeterminantOf(Example) == Ok(-1.0)
    ensures InverseOf(Example) == Ok(Some(ExampleInverse))
    ensures TimesSpec(Example, ExampleInverse) == Ok(Identity(3, 3))
    ensures Product(ExampleInverse, Example) == Identity(3, 3)
  {
    Expansion();
    Determinant();
    Inverse();
    InverseIsRightInverse(Example);
    InverseIsLeftInverse(Example);
  }
}
