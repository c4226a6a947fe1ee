/**
 * The `Probability` object (src/main/java/Probability.kt): factorial and
 * binomial coefficient on 64-bit Longs. Every multiplication wraps modulo
 * 2^64 and the division truncates toward zero, as Kotlin's Long does.
 */
module Probability {
  import opened Wrappers

  const LongMin: int := -0x8000_0000_0000_0000
  const LongMax: int := 0x7FFF_FFFF_FFFF_FFFF
  const LongModulus: int := 0x1_0000_0000_0000_0000
  const IntMin: int := -0x8000_0000
  const IntMax: int := 0x7FFF_FFFF

  predicate IsLong(x: int)
  {
    LongMin <= x <= LongMax
  }

  /** Two's-complement wrap-around into a Long. */
  function WrapLong(x: int): (r: int)
    ensures IsLong(r)
    ensures (r - x) % LongModulus == 0
    ensures IsLong(x) ==> r == x
  {
    (x - LongMin) % LongModulus + LongMin
  }

  /** Values that differ by a multiple of 2^64 wrap to the same Long. */
  lemma WrapShift(x: int, q: int)
    ensures WrapLong(x + LongModulus * q) == WrapLong(x)
  {
  }

  /** Wrapping before a multiplication does not change the wrapped product. */
  lemma WrapTimes(x: int, y: int)
    ensures WrapLong(WrapLong(x) * y) == WrapLong(x * y)
  {
    var t := (WrapLong(x) - x) / LongModulus;
    assert WrapLong(x) == x + LongModulus * t;
    assert WrapLong(x) * y == x * y + LongModulus * (t * y);
    WrapShift(x * y, t * y);
  }

  /**
   * q is a quotient of a by b truncated toward zero: the remainder a - q * b
   * is smaller than the divisor and, unless it is 0, has the dividend's sign.
   */
  predicate IsTruncatedQuotient(a: int, b: int, q: int)
  {
    var rem := a - q * b;
    Abs(rem) < Abs(b) && (rem == 0 || (rem < 0) == (a < 0))
  }

  /** The quotient of the magnitudes, with the sign of a * b: truncation toward zero. */
  function SignedQuotient(a: int, b: int): int
    requires b != 0
  {
    if (a < 0) == (b < 0) then Abs(a) / Abs(b) else -(Abs(a) / Abs(b))
  }

  /** Kotlin's Long `/`: truncation toward zero, wrapped (only MIN / -1 overflows). */
  function LongDiv(a: int, b: int): (r: int)
    requires b != 0
    ensures IsLong(r)
    ensures a >= 0 && b > 0 && IsLong(a) ==> r == a / b
    ensures a == 0 ==> r == 0
    ensures IsLong(a) && IsLong(b) && !(a == LongMin && b == -1) ==> IsTruncatedQuotient(a, b, r)
    ensures a == LongMin && b == -1 ==> r == LongMin
  {
    SignedQuotientTruncates(a, b);
    SignedQuotientRange(a, b);
    WrapLong(SignedQuotient(a, b))
  }

  /** The signed quotient leaves a remainder smaller than b with the sign of a. */
  lemma SignedQuotientTruncates(a: int, b: int)
    requires b != 0
    ensures IsTruncatedQuotient(a, b, SignedQuotient(a, b))
  {
    var A: int, B: int := Abs(a), Abs(b);
    var Q: int := A / B;
    var R: int := A - Q * B;
    assert 0 <= R < B;
    var q := SignedQuotient(a, b);
    MulNeg(Q, B);
    if b > 0 {
      if a >= 0 {
        assert q * b == Q * B;
      } else {
        assert q * b == (-Q) * B;
      }
    } else {
      assert b == -B;
      if a < 0 {
        assert q * b == Q * (-B);
      } else {
        assert q * b == (-Q) * (-B);
      }
    }
  }

  lemma MulNeg(x: int, y: int)
    ensures x * (-y) == -(x * y) && (-x) * y == -(x * y) && (-x) * (-y) == x * y
  {}

  /** The signed quotient of two Longs is a Long, except MIN / -1, which is 2^63. */
  lemma SignedQuotientRange(a: int, b: int)
    requires b != 0
    ensures a == LongMin && b == -1 ==> SignedQuotient(a, b) == LongMax + 1
    ensures a >= 0 && b > 0 ==> SignedQuotient(a, b) == a / b
    ensures a == 0 ==> SignedQuotient(a, b) == 0
    ensures IsLong(a) && IsLong(b) && !(a == LongMin && b == -1) ==> IsLong(SignedQuotient(a, b))
  {
    DivisionAtMost(Abs(a), Abs(b));
  }

  lemma MulNonneg(x: int, y: int)
    requires x >= 0 && y >= 0
    ensures x * y >= 0
  {}

  lemma MulAtLeast(q: int, b: int)
    requires q >= 0 && b >= 1
    ensures q * b >= q
  {
    MulNonneg(q, b - 1);
    assert q * b == q * (b - 1) + q;
  }

  /** Dividing a natural number by a positive one never increases it, and strictly decreases it past 1. */
  lemma DivisionAtMost(a: int, b: int)
    requires a >= 0 && b > 0
    ensures a / b <= a
    ensures b > 1 && a > 0 ==> a / b < a
  {
    var q := a / b;
    assert a == q * b + a % b;
    MulAtLeast(q, b);
    if b > 1 && q > 0 {
      MulAtLeast(q, b - 1);
      assert q * b == q * (b - 1) + q;
    }
  }

  function Abs(x: int): nat
  {
    if x < 0 then -x else x
  }

  // ------------------------------------------------------------------
  // Products of a range
  // ------------------------------------------------------------------

  /** The exact product lo * (lo + 1) * ... * hi; 1 for an empty range. */
  function RangeProduct(lo: int, hi: int): int
    decreases hi - lo
  {
    if hi < lo then 1 else RangeProduct(lo, hi - 1) * hi
  }

  /** The same product multiplied out on Longs, left to right, wrapping at every step. */
  function WrappedProduct(lo: int, hi: int): (r: int)
    ensures IsLong(r)
    decreases hi - lo
  {
    if hi < lo then 1 else WrapLong(WrappedProduct(lo, hi - 1) * hi)
  }

  /** Wrapping at every step gives the exact product reduced modulo 2^64. */
  lemma {:induction false} WrappedIsExactModulo(lo: int, hi: int)
    ensures WrappedProduct(lo, hi) == WrapLong(RangeProduct(lo, hi))
    decreases hi - lo
  {
    if hi >= lo {
      WrappedIsExactModulo(lo, hi - 1);
      WrapTimes(RangeProduct(lo, hi - 1), hi);
    }
  }

  /** A range that runs through 0 has product 0, wrapped or not. */
  lemma {:induction false} ProductThroughZero(lo: int, hi: int)
    requires lo <= 0 <= hi
    ensures WrappedProduct(lo, hi) == 0
    decreases hi - lo
  {
    if hi > 0 {
      ProductThroughZero(lo, hi - 1);
    }
  }

  /** n! for n >= 0, the mathematical factorial. */
  function Fact(n: nat): nat
  {
    if n == 0 then 1 else Fact(n - 1) * n
  }

  lemma {:induction false} FactIsRangeProduct(n: nat)
    ensures RangeProduct(1, n) == Fact(n)
  {
    if n > 0 {
      FactIsRangeProduct(n - 1);
    }
  }

  lemma {:induction false} FactPositive(n: nat)
    ensures Fact(n) >= 1
  {
    if n > 0 {
      FactPositive(n - 1);
    }
  }

  lemma {:induction false} FactMonotone(m: nat, n: nat)
    requires m <= n
    ensures Fact(m) <= Fact(n)
    decreases n - m
  {
    if m < n {
      FactMonotone(m, n - 1);
      FactPositive(n - 1);
      MulGrows(Fact(n - 1), n);
    }
  }

  lemma MulAssoc(a: int, b: int, c: int)
    ensures a * (b * c) == (a * b) * c
  {
  }

  lemma MulGrows(a: int, n: int)
    requires a >= 0 && n >= 1
    ensures a <= a * n
  {
  }

  /** 20! is the largest factorial that fits in a Long. */
  lemma FactTwenty()
    ensures Fact(20) == 2432902008176640000 && IsLong(Fact(20))
    ensures Fact(21) == 51090942171709440000 && !IsLong(Fact(21))
  {
    assert Fact(5) == 120;
    assert Fact(10) == 3628800;
    assert Fact(15) == 1307674368000;
    assert Fact(20) == 2432902008176640000;
  }

  /** The product of a tail of 1..n, times the factorial of what precedes it, is n!. */
  lemma {:induction false} FactSplit(n: nat, m: nat)
    requires m <= n
    ensures Fact(m) * RangeProduct(m + 1, n) == Fact(n)
    decreases n - m
  {
    if m < n {
      FactSplit(n - 1, m);
      var a, b := Fact(m), RangeProduct(m + 1, n - 1);
      assert RangeProduct(m + 1, n) == b * n;
      MulAssoc(a, b, n);
    }
  }

  // ------------------------------------------------------------------
  // factorial and binomial
  // ------------------------------------------------------------------

  /**
   * `factorial(n)`: reduce over 1L..n, which throws on an empty range
   * (n <= 0); otherwise n! wrapped into a Long.
   */
  function Factorial(n: int): (r: Result<int>)
    ensures r.Err? <==> n <= 0
    ensures r.Err? ==> r.error == EmptyReduce
    ensures r.Ok? ==> r.value == WrapLong(Fact(n))
    ensures r.Ok? && n <= 20 ==> r.value == Fact(n)
  {
    if n <= 0 then Err(EmptyReduce)
    else
      WrappedIsExactModulo(1, n);
      FactIsRangeProduct(n);
      if n <= 20 then
        FactMonotone(n, 20);
        FactTwenty();
        Ok(WrappedProduct(1, n))
      else Ok(WrappedProduct(1, n))
  }

  /** `ans / factorial(k)`: the factorial's error, division by zero, or the truncated quotient. */
  function Quotient(p: int, f: Result<int>): (r: Result<int>)
    ensures f.Err? ==> r == Err(f.error)
    ensures f.Ok? && f.value == 0 ==> r == Err(DivisionByZero)
    ensures f.Ok? && f.value > 0 && 0 <= p <= LongMax ==> r == Ok(p / f.value)
    ensures f.Ok? && f.value != 0 && IsLong(p) && IsLong(f.value) && !(p == LongMin && f.value == -1) ==>
      r.Ok? && IsLong(r.value) && IsTruncatedQuotient(p, f.value, r.value)
  {
    match f
    case Err(e) => Err(e)
    case Ok(d) => if d == 0 then Err(DivisionByZero) else Ok(LongDiv(p, d))
  }

  /**
   * `binomial(n, k)`: negative arguments throw; n == k is 1; otherwise the
   * product of n - k + 1 .. n on Longs divided by `factorial(k)`.
   */
  function BinomialOf(n: int, k: int): (r: Result<int>)
    ensures r == Err(IllegalArgument) <==> n < 0 || k < 0
    ensures 0 <= n && n == k ==> r == Ok(1)
  {
    if n < 0 || k < 0 then Err(IllegalArgument)
    else if n == k then Ok(1)
    else Quotient(WrappedProduct(n - k + 1, n), Factorial(k))
  }

  /** `binomial` with its loop: `ans *= i` for i in n - k + 1 .. n, then the division. */
  method Binomial(n: int, k: int) returns (r: Result<int>)
    ensures r == BinomialOf(n, k)
  {
    if n < 0 || k < 0 {
      return Err(IllegalArgument);
    }
    if n == k {
      return Ok(1);
    }
    var ans := 1;
    var i := n - k + 1;
    while i <= n
      invariant n - k + 1 <= i <= n + 1
      invariant ans == WrappedProduct(n - k + 1, i - 1)
      decreases n - i
    {
      ans := WrapLong(ans * i);
      i := i + 1;
    }
    var f := Factorial(k);
    if f.Err? {
      return Err(f.error);
    }
    if f.value == 0 {
      return Err(DivisionByZero);
    }
    return Ok(LongDiv(ans, f.value));
  }

  /** `Double.fac()`: `roundToInt` (ties up, saturating at the Int bounds) then `factorial`. */
  function RoundToInt(x: real): (r: int)
    ensures IntMin <= r <= IntMax
    ensures IntMin as real <= x < IntMax as real ==> (r as real) - 0.5 <= x < (r as real) + 0.5
    ensures x >= IntMax as real ==> r == IntMax
    ensures x < IntMin as real ==> r == IntMin
  {
    var n := (x + 0.5).Floor;
    if n < IntMin then IntMin else if n > IntMax then IntMax else n
  }

  /** `Double.fac()`: the factorial of the value rounded to an `Int`. */
  function FactorialOfReal(x: real): Result<int>
  {
    Factorial(RoundToInt(x))
  }

  /** On whole numbers `Double.fac()` is `Int.fac()`. */
  lemma FactorialOfWhole(n: int)
    requires IntMin <= n <= IntMax
    ensures FactorialOfReal(n as real) == Factorial(n)
  {
    assert (n as real + 0.5).Floor == n;
  }

  // ------------------------------------------------------------------
  // Pascal's triangle, the reference for the binomial coefficient
  // ------------------------------------------------------------------

  function Pascal(n: nat, k: nat): nat
  {
    if k == 0 then 1 else if n == 0 then 0 else Pascal(n - 1, k - 1) + Pascal(n - 1, k)
  }

  lemma {:induction false} PascalAbove(n: nat, k: nat)
    requires n < k
    ensures Pascal(n, k) == 0
  {
    if n > 0 {
      PascalAbove(n - 1, k - 1);
      PascalAbove(n - 1, k);
    }
  }

  lemma {:induction false} PascalDiagonal(n: nat)
    ensures Pascal(n, n) == 1
  {
    if n > 0 {
      PascalDiagonal(n - 1);
      PascalAbove(n - 1, n);
    }
  }

  /** C(n, k) * k! * (n - k)! == n!. */
  lemma {:induction false} PascalFactorials(n: nat, k: nat)
    requires k <= n
    ensures Pascal(n, k) * Fact(k) * Fact(n - k) == Fact(n)
  {
    if k == 0 {
    } else if k == n {
      PascalDiagonal(n);
    } else {
      PascalFactorials(n - 1, k - 1);
      PascalFactorials(n - 1, k);
      var a, b := Pascal(n - 1, k - 1), Pascal(n - 1, k);
      var fk1, fnk1 := Fact(k - 1), Fact(n - 1 - k);
      assert Fact(k) == fk1 * k;
      assert Fact(n - k) == fnk1 * (n - k);
      assert Fact(n) == Fact(n - 1) * n;
      PascalStep(a, b, fk1, fnk1, k, n - k, Fact(n - 1));
    }
  }

  /** The arithmetic of the inductive step of PascalFactorials. */
  lemma PascalStep(a: int, b: int, fk1: int, fnk1: int, k: int, nk: int, f: int)
    requires a * fk1 * (fnk1 * nk) == f && b * (fk1 * k) * fnk1 == f
    ensures (a + b) * (fk1 * k) * (fnk1 * nk) == f * (k + nk)
  {
    assert (a + b) * (fk1 * k) * (fnk1 * nk) == a * (fk1 * k) * (fnk1 * nk) + b * (fk1 * k) * (fnk1 * nk);
    assert a * (fk1 * k) * (fnk1 * nk) == (a * fk1 * (fnk1 * nk)) * k;
    assert b * (fk1 * k) * (fnk1 * nk) == (b * (fk1 * k) * fnk1) * nk;
  }

  lemma Cancel(x: int, y: int, c: int)
    requires c > 0 && x * c == y * c
    ensures x == y
  {

  }

  /** The only multiple of f in [0, f) is 0. */
  lemma NoSmallMultiple(f: int, d: int)
    requires f > 0 && 0 <= f * d < f
    ensures d == 0
  {
    if d > 0 {
      MulGrows(f, d);
    } else if d < 0 {
      MulGrows(f, -d);
    }
  }

  /** An exact division that fits in a Long. */
  lemma QuotientExact(p: nat, f: int)
    requires 1 <= f && p * f <= LongMax
    ensures Quotient(p * f, Ok(f)) == Ok(p)
  {
    DivExact(p, f);
  }

  lemma DivExact(p: nat, f: int)
    requires f > 0
    ensures (p * f) / f == p
  {
    var q, m := (p * f) / f, (p * f) % f;
    assert p * f == f * q + m;
    assert f * (p - q) == m;
    NoSmallMultiple(f, p - q);
  }

  /**
   * With k <= n <= 20 nothing overflows: the product n - k + 1 .. n is at
   * most n! <= 20!, and so is k!.
   */
  lemma SmallQuotient(n: nat, k: nat)
    requires k <= n <= 20
    ensures IsLong(RangeProduct(n - k + 1, n))
    ensures 1 <= Fact(k) <= LongMax
  {
    TopBound(n, k);
    FactBound(n);
    FactBound(k);
    FactPositive(k);
  }

  /** The product n - k + 1 .. n lies between 0 and n!. */
  lemma TopBound(n: nat, k: nat)
    requires k <= n
    ensures 0 <= RangeProduct(n - k + 1, n) <= Fact(n)
  {
    TopIsPascal(n, k);
    var p, f := Pascal(n, k), Fact(k);
    assert 0 <= p * f;
  }

  /** Factorials up to 20! fit in a Long. */
  lemma FactBound(n: nat)
    requires n <= 20
    ensures Fact(n) <= 2432902008176640000 < LongMax
  {
    FactMonotone(n, 20);
    FactTwenty();
  }

  /** A product that fits in a Long is computed exactly. */
  lemma NoWrap(lo: int, hi: int)
    requires IsLong(RangeProduct(lo, hi))
    ensures WrappedProduct(lo, hi) == RangeProduct(lo, hi)
  {
    WrappedIsExactModulo(lo, hi);
  }

  /** The product n - k + 1 .. n is C(n, k) * k!, and at most n!. */
  lemma TopIsPascal(n: nat, k: nat)
    requires k <= n
    ensures RangeProduct(n - k + 1, n) == Pascal(n, k) * Fact(k)
    ensures RangeProduct(n - k + 1, n) <= Fact(n)
  {
    PascalFactorials(n, k);
    FactSplit(n, n - k);
    FactPositive(n - k);
    var top, p, fk, fr := RangeProduct(n - k + 1, n), Pascal(n, k), Fact(k), Fact(n - k);
    assert fr * top == Fact(n);
    assert (p * fk) * fr == top * fr;
    Cancel(p * fk, top, fr);
    MulGrows(top, fr);
  }

  /** For 1 <= k <= n <= 20, `binomial(n, k)` is the binomial coefficient C(n, k). */
  lemma BinomialSmall(n: nat, k: nat)
    requires 1 <= k <= n <= 20
    ensures BinomialOf(n, k) == Ok(Pascal(n, k))
  {
    if n != k {
      SmallQuotient(n, k);
      TopIsPascal(n, k);
      NoWrap(n - k + 1, n);
      assert Factorial(k) == Ok(Fact(k));
      QuotientExact(Pascal(n, k), Fact(k));
    } else {
      PascalDiagonal(n);
    }
  }

  /**
   * When k exceeds n the range n - k + 1 .. n runs through 0, so the result
   * is 0, unless k! wraps to 0 (k >= 66), when the division throws.
   */
  lemma BinomialAboveN(n: nat, k: nat)
    requires n < k
    ensures BinomialOf(n, k) == if WrapLong(Fact(k)) == 0 then Err(DivisionByZero) else Ok(0)
  {
    ProductThroughZero(n - k + 1, n);
  }

  /** 21! does not fit: `factorial(21)` is 21! wrapped, a negative Long. */
  lemma FactorialOverflow()
    ensures Factorial(21) == Ok(-4249290049419214848)
    ensures WrapLong(Fact(21)) == -4249290049419214848
  {
    FactTwenty();
    WrapTwentyOne();
  }

  lemma WrapTwentyOne()
    ensures WrapLong(51090942171709440000) == -4249290049419214848
  {
  }

  /** The overflow reaches `binomial`: 21 choose 20 comes out as -1, not C(21, 20) = 21. */
  lemma BinomialOverflow()
    ensures BinomialOf(21, 20) == Ok(-1)
  {
    BinomialNearDiagonal(21);
    FactorialOverflow();
    FactorialTwenty();
    QuotientOverflow();
  }

  lemma FactorialTwenty()
    ensures Factorial(20) == Ok(2432902008176640000)
  {
    FactTwenty();
  }

  lemma QuotientOverflow()
    ensures Quotient(-4249290049419214848, Ok(2432902008176640000)) == Ok(-1)
  {
    assert LongDiv(-4249290049419214848, 2432902008176640000) == -1;
  }

  /** `binomial(n, n - 1)` divides n! by (n - 1)!, both wrapped. */
  lemma BinomialNearDiagonal(n: nat)
    requires n >= 2
    ensures BinomialOf(n, n - 1) == Quotient(WrapLong(Fact(n)), Factorial(n - 1))
  {
    FactSplit(n, 1);
    OneTimes(Fact(1), RangeProduct(2, n));
    WrappedIsExactModulo(2, n);
  }

  lemma OneTimes(a: int, x: int)
    requires a == 1
    ensures a * x == x
  {
  }

  /** C(n + 1, n) == n + 1, so the overflow above loses the true value 21. */
  lemma {:induction false} PascalNext(n: nat)
    ensures Pascal(n + 1, n) == n + 1
  {
    if n > 0 {
      PascalNext(n - 1);
      PascalDiagonal(n);
    }
  }

  // ------------------------------------------------------------------
  // k = 0: the empty reduce
  // ------------------------------------------------------------------

  /**
   * As written, `binomial(n, 0)` for n > 0 calls `factorial(0)`, whose
   * reduce over an empty range throws, although C(n, 0) is 1.
   */
  lemma BinomialZeroThrows(n: nat)
    requires n > 0
    ensures BinomialOf(n, 0) == Err(EmptyReduce)
    ensures Pascal(n, 0) == 1
  {
  }

  /** `binomial` with the factorial taken as a fold from 1, so that 0! is 1. */
  function BinomialCorrected(n: int, k: int): (r: Result<int>)
    ensures n < 0 || k < 0 ==> r == Err(IllegalArgument)
    ensures 0 <= k <= n <= 20 ==> r == Ok(Pascal(n, k))
  {
    if n < 0 || k < 0 then Err(IllegalArgument)
    else if n == k then
      (if n <= 20 then PascalDiagonal(n); Ok(1) else Ok(1))
    else
      var r := Quotient(WrappedProduct(n - k + 1, n), Ok(WrappedProduct(1, k)));
      if k <= n <= 20 then
        SmallQuotient(n, k);
        TopIsPascal(n, k);
        NoWrap(n - k + 1, n);
        FactIsRangeProduct(k);
        NoWrap(1, k);
        QuotientExact(Pascal(n, k), Fact(k));
        PascalDiagonal(k);
        r
      else r
  }

  /** The corrected version differs from `binomial` only at k = 0. */
  lemma CorrectedAgrees(n: int, k: int)
    requires k != 0
    ensures BinomialCorrected(n, k) == BinomialOf(n, k)
  {
    if n >= 0 && k > 0 && n != k {
      WrappedIsExactModulo(1, k);
      FactIsRangeProduct(k);
    }
  }
}
