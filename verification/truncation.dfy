/**
  Integer division that rounds toward zero.

  The order calculator converts every quotient to an integer with Python's
  `int(...)`, which drops the fractional part: `int(2.9) == 2` but
  `int(-0.6) == 0`. Dafny's own `/` on `int` is Euclidean (it rounds down for
  a positive divisor), so the two disagree on negative dividends. Every
  rounding in the model goes through `TruncDiv`.
 */
module Truncation {

  /** `a / b` rounded toward zero, for a positive divisor: the quotient of
      the magnitudes, with the dividend's sign. */
  function TruncDiv(a: int, b: int): int
    requires b > 0
  {
    if a >= 0 then Quotient(a, b) else -(Quotient(-a, b) as int)
  }

  /** How many whole times `b` fits into a non-negative `a`. */
  function Quotient(a: nat, b: int): nat
    requires b > 0
    decreases a
  {
    if a < b then 0 else 1 + Quotient(a - b, b)
  }

  /** Repeated subtraction leaves a remainder smaller than the divisor. */
  lemma {:induction false} QuotientBounds(a: nat, b: int)
    requires b > 0
    ensures Quotient(a, b) * b <= a < Quotient(a, b) * b + b
    decreases a
  {
    if a >= b {
      QuotientBounds(a - b, b);
      assert Quotient(a, b) * b == Quotient(a - b, b) * b + b;
    }
  }

  /** The defining property of rounding toward zero: the remainder lies
      strictly inside one divisor and has the sign of the dividend. */
  lemma TruncDivBounds(a: int, b: int)
    requires b > 0
    ensures 0 <= a ==> 0 <= a - TruncDiv(a, b) * b < b
    ensures a < 0 ==> -b < a - TruncDiv(a, b) * b <= 0
  {
    if a >= 0 {
      QuotientBounds(a, b);
    } else {
      QuotientBounds(-a, b);
      assert TruncDiv(a, b) * b == -(Quotient(-a, b) * b);
    }
  }

  /** The contract of `TruncDiv` determines its value: any `q` with a
      remainder of the dividend's sign and smaller than the divisor is it. */
  lemma TruncDivUnique(a: int, b: int, q: int)
    requires b > 0
    requires 0 <= a ==> 0 <= a - q * b < b
    requires a < 0 ==> -b < a - q * b <= 0
    ensures q == TruncDiv(a, b)
  {
    var t := TruncDiv(a, b);
    TruncDivBounds(a, b);
    if q < t {
      MulStrict(q, t, b);
    } else if q > t {
      MulStrict(t, q, b);
    }
  }

  /** Truncation agrees with Dafny's division on non-negative dividends and is
      one more than it on a negative dividend that is not a multiple of the
      divisor; this is where Python's `int()` and a floor differ. */
  lemma TruncDivVersusFloor(a: int, b: int)
    requires b > 0
    ensures 0 <= a ==> TruncDiv(a, b) == a / b
    ensures a < 0 && a % b != 0 ==> TruncDiv(a, b) == a / b + 1
    ensures a < 0 && a % b == 0 ==> TruncDiv(a, b) == a / b
  {
    var q := a / b;
    assert a == q * b + a % b && 0 <= a % b < b;
    if 0 <= a {
      TruncDivUnique(a, b, q);
    } else if a % b == 0 {
      TruncDivUnique(a, b, q);
    } else {
      TruncDivUnique(a, b, q + 1);
    }
  }

  /** A share of one `b`-th of a pool lies between zero and the pool, on the
      pool's side of zero. */
  lemma TruncDivShrinks(pool: int, b: int)
    requires b > 0
    ensures 0 <= pool ==> 0 <= TruncDiv(pool, b) <= pool
    ensures pool < 0 ==> pool <= TruncDiv(pool, b) <= 0
  {
    var q := TruncDiv(pool, b);
    TruncDivBounds(pool, b);
    if 0 <= pool && q < 0 {
      MulStrict(q, 0, b);
    } else if 0 <= pool && q > pool {
      MulMonotone(1, b, q);
    } else if pool < 0 && q > 0 {
      MulStrict(0, q, b);
    } else if pool < 0 && q < pool {
      MulMonotone(1, b, -q);
    }
  }

  /** Rounding toward zero is monotone in the dividend. */
  lemma TruncDivMonotone(a: int, a': int, b: int)
    requires b > 0 && a <= a'
    ensures TruncDiv(a, b) <= TruncDiv(a', b)
  {
    if 0 <= a {
      QuotientMonotone(a, a', b);
    } else if a' < 0 {
      QuotientMonotone(-a', -a, b);
    }
  }

  /** A larger dividend fits the divisor at least as many times. */
  lemma {:induction false} QuotientMonotone(a: nat, a': nat, b: int)
    requires b > 0 && a <= a'
    ensures Quotient(a, b) <= Quotient(a', b)
    decreases a
  {
    if b <= a {
      QuotientMonotone(a - b, a' - b, b);
    }
  }

  /** Multiplying by a positive factor keeps distinct values at least one
      factor apart. */
  lemma MulStrict(x: int, y: int, c: int)
    requires x < y && 0 < c
    ensures x * c + c <= y * c
  {
    MulMonotone(x + 1, y, c);
    assert (x + 1) * c == x * c + c;
  }

  /** Multiplying by a non-negative factor preserves order. */
  lemma MulMonotone(x: int, y: int, c: int)
    requires x <= y && 0 <= c
    ensures x * c <= y * c
  {
    assert y * c - x * c == (y - x) * c;
  }
}
