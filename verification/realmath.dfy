/** Exact real arithmetic the loan formulas need: natural powers of a real
    and Python's `int()` conversion, which truncates toward zero. */
module RealMath {

  /** `x` raised to the natural power `n`. */
  function Pow(x: real, n: nat): real
    decreases n
  {
    if n == 0 then 1.0 else x * Pow(x, n - 1)
  }

  /** Python's `int(x)` on a float: the integer part, rounded toward zero. */
  function TruncToInt(x: real): (n: int)
    ensures 0.0 <= x ==> 0 <= n && n as real <= x < n as real + 1.0
    ensures x < 0.0 ==> n <= 0 && n as real - 1.0 < x <= n as real
  {
    if x >= 0.0 then x.Floor else -((-x).Floor)
  }

  lemma {:induction false} PowOfOne(n: nat)
    ensures Pow(1.0, n) == 1.0
  {
    if n > 0 {
      PowOfOne(n - 1);
    }
  }

  lemma {:induction false} PowPositive(x: real, n: nat)
    requires 0.0 < x
    ensures 0.0 < Pow(x, n)
  {
    if n > 0 {
      PowPositive(x, n - 1);
    }
  }

  lemma {:induction false} PowNonZero(x: real, n: nat)
    requires x != 0.0
    ensures Pow(x, n) != 0.0
  {
    if n > 0 {
      PowNonZero(x, n - 1);
    }
  }

  /** A base above one grows past one with every positive power. */
  lemma {:induction false} PowAboveOne(x: real, n: nat)
    requires 1.0 < x && 1 <= n
    ensures x <= Pow(x, n)
  {
    if n > 1 {
      PowAboveOne(x, n - 1);
      assert x * Pow(x, n - 1) >= x * x;
      assert x * x > x;
    }
  }

  /** A base strictly between zero and one stays strictly between them. */
  lemma {:induction false} PowBelowOne(x: real, n: nat)
    requires 0.0 < x < 1.0 && 1 <= n
    ensures 0.0 < Pow(x, n) < 1.0
  {
    if n > 1 {
      PowBelowOne(x, n - 1);
      assert x * Pow(x, n - 1) < Pow(x, n - 1);
    }
  }

  /** Negating the base flips the sign of odd powers only. */
  lemma {:induction false} PowOfNegation(x: real, n: nat)
    ensures Pow(-x, n) == if n % 2 == 0 then Pow(x, n) else -Pow(x, n)
  {
    if n > 0 {
      PowOfNegation(x, n - 1);
    }
  }

  /** A positive power equals one exactly for base 1, and for base -1 when
      the exponent is even. */
  lemma PowIsOne(x: real, n: nat)
    requires 1 <= n
    ensures Pow(x, n) == 1.0 <==> x == 1.0 || (x == -1.0 && n % 2 == 0)
  {
    if x == 1.0 {
      PowOfOne(n);
    } else if x == -1.0 {
      PowOfNegation(1.0, n);
      PowOfOne(n);
    } else if x > 1.0 {
      PowAboveOne(x, n);
    } else if 0.0 < x {
      PowBelowOne(x, n);
    } else if x == 0.0 {
      assert Pow(x, n) == 0.0 * Pow(x, n - 1);
    } else if x < -1.0 {
      PowOfNegation(-x, n);
      PowAboveOne(-x, n);
    } else {
      PowOfNegation(-x, n);
      PowBelowOne(-x, n);
    }
  }

  /** A product with a nonzero factor vanishes only when the other factor does. */
  lemma ZeroProduct(x: real, y: real)
    requires y != 0.0
    ensures x * y == 0.0 <==> x == 0.0
  {
    if x * y == 0.0 {
      assert x == (x * y) / y;
    }
  }

  /** Multiplying a strict inequality by a positive factor. */
  lemma MulStrict(a: real, b: real, c: real)
    requires a < b && 0.0 < c
    ensures a * c < b * c
  {
    assert b * c - a * c == (b - a) * c;
  }

  /** A product of two nonnegative factors is nonnegative. */
  lemma MulNonNegative(x: real, y: real)
    requires 0.0 <= x && 0.0 <= y
    ensures 0.0 <= x * y
  {
  }
}
