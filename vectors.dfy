/**
 * `Vectorf` (src/main/java/Vectorf.kt and the older src/Vectorf.kt): a
 * vector of floats with elementwise sum and difference, scaling, the dot
 * product and the library's cross product. Entries are reals. Reading
 * `other[i]` past the end of `other` throws, which is an Err here.
 */
module Vectors {
  import opened Wrappers

  type Vector = seq<real>

  /** `from(vararg ints)`: each int converted to its value as a float, in order. */
  function FromInts(ints: seq<int>): (r: Vector)
    ensures |r| == |ints|
    ensures forall i | 0 <= i < |ints| :: r[i].Floor == ints[i] && r[i] == ints[i] as real
  {
    seq(|ints|, i requires 0 <= i < |ints| => ints[i] as real)
  }

  /** `plus`: elementwise over the receiver's indices; a shorter `other` throws. */
  function Plus(v: Vector, w: Vector): (r: Result<Vector>)
    ensures r.Err? <==> |w| < |v|
    ensures r.Err? ==> r.error == IndexOutOfBounds
    ensures r.Ok? ==> |r.value| == |v| && forall i | 0 <= i < |v| :: r.value[i] == v[i] + w[i]
  {
    if |w| < |v| then Err(IndexOutOfBounds)
    else Ok(seq(|v|, i requires 0 <= i < |v| => v[i] + w[i]))
  }

  /** `minus`: elementwise over the receiver's indices; a shorter `other` throws. */
  function Minus(v: Vector, w: Vector): (r: Result<Vector>)
    ensures r.Err? <==> |w| < |v|
    ensures r.Err? ==> r.error == IndexOutOfBounds
    ensures r.Ok? ==> |r.value| == |v| && forall i | 0 <= i < |v| :: r.value[i] == v[i] - w[i]
  {
    if |w| < |v| then Err(IndexOutOfBounds)
    else Ok(seq(|v|, i requires 0 <= i < |v| => v[i] - w[i]))
  }

  /** Subtracting what was added gives back the receiver. */
  lemma MinusUndoesPlus(v: Vector, w: Vector)
    requires |v| <= |w|
    ensures Plus(v, w).Ok? && Minus(Plus(v, w).value, w) == Ok(v)
  {
    var s := Plus(v, w).value;
    assert Minus(s, w).value == v;
  }

  /** Sum is symmetric for equal lengths; a longer `other` is accepted on one side only. */
  lemma PlusSymmetric(v: Vector, w: Vector)
    ensures |v| == |w| ==> Plus(v, w) == Plus(w, v)
    ensures |v| < |w| ==> Plus(v, w).Ok? && Plus(w, v).Err?
  {
    if |v| == |w| {
      assert Plus(v, w).value == Plus(w, v).value;
    }
  }

  /** Scalar `times`: every component multiplied by the scalar. */
  function TimesScalar(v: Vector, s: real): (r: Vector)
    ensures |r| == |v| && forall i | 0 <= i < |v| :: r[i] == v[i] * s
  {
    seq(|v|, i requires 0 <= i < |v| => v[i] * s)
  }

  /** Scaling by s and then by 1/s restores the vector. */
  lemma TimesScalarInverse(v: Vector, s: real)
    requires s != 0.0
    ensures TimesScalar(TimesScalar(v, s), 1.0 / s) == v
  {
    var r := TimesScalar(TimesScalar(v, s), 1.0 / s);
    forall i | 0 <= i < |v| ensures r[i] == v[i] {
      assert r[i] == (v[i] * s) * (1.0 / s);
    }
  }

  /** The sum of v[i]·w[i] over the first k indices, added first to last. */
  function DotSum(v: Vector, w: Vector, k: nat): real
    requires k <= |v| && k <= |w|
  {
    if k == 0 then 0.0 else DotSum(v, w, k - 1) + v[k - 1] * w[k - 1]
  }

  /** The dot product `times(Vectorf)`: Σ v[i]·w[i] over the receiver; a shorter `other` throws. */
  function Dot(v: Vector, w: Vector): (r: Result<real>)
    ensures r.Err? <==> |w| < |v|
    ensures r.Err? ==> r.error == IndexOutOfBounds
    ensures r.Ok? ==> r.value == DotSum(v, w, |v|)
  {
    if |w| < |v| then Err(IndexOutOfBounds) else Ok(DotSum(v, w, |v|))
  }

  lemma {:induction false} DotSumSymmetric(v: Vector, w: Vector, k: nat)
    requires k <= |v| && k <= |w|
    ensures DotSum(v, w, k) == DotSum(w, v, k)
  {
    if k > 0 {
      DotSumSymmetric(v, w, k - 1);
    }
  }

  /** The dot product is symmetric for vectors of one length. */
  lemma DotSymmetric(v: Vector, w: Vector)
    requires |v| == |w|
    ensures Dot(v, w) == Dot(w, v)
  {
    DotSumSymmetric(v, w, |v|);
  }

  lemma {:induction false} DotSumScaled(v: Vector, w: Vector, s: real, k: nat)
    requires k <= |v| && k <= |w|
    ensures DotSum(TimesScalar(v, s), w, k) == s * DotSum(v, w, k)
  {
    if k > 0 {
      DotSumScaled(v, w, s, k - 1);
      assert TimesScalar(v, s)[k - 1] * w[k - 1] == s * (v[k - 1] * w[k - 1]);
    }
  }

  /** Scaling the receiver scales the dot product. */
  lemma DotScaled(v: Vector, w: Vector, s: real)
    requires |v| <= |w|
    ensures Dot(v, w).Ok? && Dot(TimesScalar(v, s), w).Ok?
    ensures Dot(TimesScalar(v, s), w).value == s * Dot(v, w).value
  {
    DotSumScaled(v, w, s, |v|);
    assert Dot(TimesScalar(v, s), w) == Ok(DotSum(TimesScalar(v, s), w, |v|));
    assert Dot(v, w) == Ok(DotSum(v, w, |v|));
  }

  /** `equals`: same size and the same values, index by index. */
  predicate Equals(v: Vector, w: Vector)
  {
    |v| == |w| && forall i | 0 <= i < |v| :: v[i] == w[i]
  }

  lemma EqualsIsEquality(v: Vector, w: Vector)
    ensures Equals(v, w) <==> v == w
  {
  }

  // ------------------------------------------------------------------
  // The cross product `x`
  // ------------------------------------------------------------------

  /** `(0 until n).filter { it != i }`: the indices other than i, in increasing order. */
  function OtherIndices(n: nat, i: nat): (r: seq<nat>)
    requires i < n
    ensures |r| == n - 1
    ensures forall k | 0 <= k < |r| :: r[k] < n && r[k] != i
    ensures forall k, l | 0 <= k < l < |r| :: r[k] < r[l]
  {
    seq(n - 1, k requires 0 <= k < n - 1 => if k < i then k else k + 1)
  }

  /** Every index other than i is among them, so the filter drops only i. */
  lemma OtherIndicesCover(n: nat, i: nat)
    requires i < n
    ensures forall j | 0 <= j < n && j != i :: j in OtherIndices(n, i)
  {
    var r := OtherIndices(n, i);
    forall j | 0 <= j < n && j != i
      ensures j in r
    {
      assert r[if j < i then j else j - 1] == j;
    }
  }

  /**
   * The fold of `folder` over idx: the accumulator is multiplied in turn by
   * an entry of v (own) or of w, alternating, starting with `own`.
   */
  function Alternating(v: Vector, w: Vector, idx: seq<nat>, acc: real, own: bool): real
    requires forall k | 0 <= k < |idx| :: idx[k] < |v| && idx[k] < |w|
  {
    if idx == [] then acc
    else Alternating(v, w, idx[1..], acc * (if own then v[idx[0]] else w[idx[0]]), !own)
  }

  /** Component i of `x`: the alternating product starting with this, minus the one starting with other. */
  function CrossComponent(v: Vector, w: Vector, i: nat): real
    requires i < |v| && (|v| == 1 || |v| <= |w|)
  {
    var idx := OtherIndices(|v|, i);
    Alternating(v, w, idx, 1.0, true) - Alternating(v, w, idx, 1.0, false)
  }

  /**
   * `x`: one component per index of the receiver. From two components on,
   * every index of `other` below the receiver's size is read, so a shorter
   * `other` throws.
   */
  function Cross(v: Vector, w: Vector): (r: Result<Vector>)
    ensures r.Err? <==> |v| >= 2 && |w| < |v|
    ensures r.Ok? ==> |r.value| == |v|
  {
    if |v| >= 2 && |w| < |v| then Err(IndexOutOfBounds)
    else Ok(seq(|v|, i requires 0 <= i < |v| => CrossComponent(v, w, i)))
  }

  /** Two-index alternating products, written out. */
  lemma AlternatingPair(v: Vector, w: Vector, idx: seq<nat>)
    requires |idx| == 2 && idx[0] < |v| && idx[0] < |w| && idx[1] < |v| && idx[1] < |w|
    ensures Alternating(v, w, idx, 1.0, true) == v[idx[0]] * w[idx[1]]
    ensures Alternating(v, w, idx, 1.0, false) == w[idx[0]] * v[idx[1]]
  {
    var rest := idx[1..];
    assert rest[1..] == [];
    assert Alternating(v, w, rest, v[idx[0]], false) == Alternating(v, w, [], v[idx[0]] * w[idx[1]], true);
    assert Alternating(v, w, rest, w[idx[0]], true) == Alternating(v, w, [], w[idx[0]] * v[idx[1]], false);
  }

  /** For 3-vectors, component i of `x` is the 2x2 minor of the other two indices. */
  lemma CrossThree(v: Vector, w: Vector)
    requires |v| == 3 && |w| == 3
    ensures Cross(v, w) == Ok([v[1] * w[2] - w[1] * v[2], v[0] * w[2] - w[0] * v[2], v[0] * w[1] - w[0] * v[1]])
  {
    assert OtherIndices(3, 0) == [1, 2];
    assert OtherIndices(3, 1) == [0, 2];
    assert OtherIndices(3, 2) == [0, 1];
    AlternatingPair(v, w, OtherIndices(3, 0));
    AlternatingPair(v, w, OtherIndices(3, 1));
    AlternatingPair(v, w, OtherIndices(3, 2));
    var c := Cross(v, w).value;
    assert c[0] == v[1] * w[2] - w[1] * v[2];
    assert c[1] == v[0] * w[2] - w[0] * v[2];
    assert c[2] == v[0] * w[1] - w[0] * v[1];
    assert c == [v[1] * w[2] - w[1] * v[2], v[0] * w[2] - w[0] * v[2], v[0] * w[1] - w[0] * v[1]];
    assert Cross(v, w) == Ok(c);
  }

  /** A one-component receiver has the single component 1 - 1 = 0 and reads nothing of `other`. */
  lemma CrossOne(v: Vector, w: Vector)
    requires |v| == 1
    ensures Cross(v, w) == Ok([0.0])
  {
    assert OtherIndices(1, 0) == [];
    var c := Cross(v, w).value;
    assert c[0] == 1.0 - 1.0;
    assert c == [0.0];
    assert Cross(v, w) == Ok(c);
  }

  /**
   * As written, `x` is not orthogonal to its operands: (1,1,0) x (0,1,1)
   * is (1,1,1), whose dot product with (1,1,0) is 2.
   */
  lemma CrossNotOrthogonal()
    ensures Cross([1.0, 1.0, 0.0], [0.0, 1.0, 1.0]) == Ok([1.0, 1.0, 1.0])
    ensures Dot([1.0, 1.0, 0.0], [1.0, 1.0, 1.0]) == Ok(2.0)
  {
    CrossThree([1.0, 1.0, 0.0], [0.0, 1.0, 1.0]);
  }

  /** The cross product of 3-vectors with the sign of the middle component corrected. */
  function Cross3(v: Vector, w: Vector): (r: Vector)
    requires |v| == 3 && |w| == 3
    ensures |r| == 3
    ensures Dot(v, r) == Ok(0.0) && Dot(w, r) == Ok(0.0)
  {
    var c := [v[1] * w[2] - v[2] * w[1], v[2] * w[0] - v[0] * w[2], v[0] * w[1] - v[1] * w[0]];
    DotSumThree(v, c);
    DotSumThree(w, c);
    TripleProductZero(v[0], v[1], v[2], w[0], w[1], w[2]);
    assert DotSum(v, c, 3) == 0.0 && DotSum(w, c, 3) == 0.0;
    c
  }

  lemma DotSumThree(u: Vector, r: Vector)
    requires |u| == 3 && |r| == 3
    ensures DotSum(u, r, 3) == u[0] * r[0] + u[1] * r[1] + u[2] * r[2]
  {
    assert DotSum(u, r, 1) == u[0] * r[0];
    assert DotSum(u, r, 2) == u[0] * r[0] + u[1] * r[1];
  }

  /** The triple products u·(u × x) and x·(u × x) vanish. */
  lemma TripleProductZero(u0: real, u1: real, u2: real, x0: real, x1: real, x2: real)
    ensures u0 * (u1 * x2 - u2 * x1) + u1 * (u2 * x0 - u0 * x2) + u2 * (u0 * x1 - u1 * x0) == 0.0
    ensures x0 * (u1 * x2 - u2 * x1) + x1 * (u2 * x0 - u0 * x2) + x2 * (u0 * x1 - u1 * x0) == 0.0
  {
  }

  /** The corrected product differs from `x` exactly in the sign of the middle component. */
  lemma Cross3Corrects(v: Vector, w: Vector)
    requires |v| == 3 && |w| == 3
    ensures Cross(v, w).Ok?
    ensures Cross(v, w).value[0] == Cross3(v, w)[0] && Cross(v, w).value[2] == Cross3(v, w)[2]
    ensures Cross(v, w).value[1] == -Cross3(v, w)[1]
  {
    CrossThree(v, w);
  }
}
