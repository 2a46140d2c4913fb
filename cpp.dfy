/**
 * The C++ built-ins the headers lean on for integers: `std::abs`,
 * `std::max` and the built-in `/` on `int`, which truncates toward zero
 * (Dafny's own `/` is Euclidean).
 */
module Cpp {
  function Abs(x: int): nat {
    if x < 0 then -x else x
  }

  function Max(a: int, b: int): (m: int)
    ensures m >= a && m >= b && (m == a || m == b)
  {
    if a >= b then a else b
  }

  /** Euclidean division by a positive number brackets the dividend. */
  lemma DivisionBrackets(x: nat, y: nat)
    requires y > 0
    ensures x - y < (x / y) * y <= x
  {
    assert x == (x / y) * y + x % y;
  }

  /**
   * C++ `a / b` on integers: the magnitude is the whole number of times
   * `|b|` fits in `|a|`, and a nonzero quotient is negative exactly when
   * the operands have opposite signs.
   */
  function TruncDiv(a: int, b: int): (q: int)
    requires b != 0
    ensures Abs(a) - Abs(b) < Abs(q) * Abs(b) <= Abs(a)
    ensures q != 0 ==> (q < 0 <==> (a < 0) != (b < 0))
  {
    var m: int := MagnitudeQuotient(Abs(a), Abs(b));
    if (a < 0) == (b < 0) then m else -m
  }

  /** How many whole times `y` fits in `x`: Euclidean division on naturals. */
  function MagnitudeQuotient(x: nat, y: nat): (m: nat)
    requires y > 0
    ensures x - y < m * y <= x
  {
    DivisionBrackets(x, y);
    x / y
  }

  /** On non-negative operands truncation and Euclidean division agree. */
  lemma TruncDivNonNegative(a: int, b: int)
    requires a >= 0 && b > 0
    ensures TruncDiv(a, b) == a / b
  {
  }

  /** Truncation is odd in each operand: `(-a) / b == -(a / b) == a / (-b)`. */
  lemma TruncDivSymmetric(a: int, b: int)
    requires b != 0
    ensures TruncDiv(-a, b) == -TruncDiv(a, b) == TruncDiv(a, -b)
  {
  }

  lemma MulMonotone(a: int, b: int, c: int)
    requires c >= 0 && a <= b
    ensures a * c <= b * c
  {
    assert (b - a) * c >= 0;
  }

  /** The two contract clauses of `TruncDiv` pin down a single quotient. */
  lemma TruncDivUnique(a: int, b: int, q: int)
    requires b != 0
    requires Abs(a) - Abs(b) < Abs(q) * Abs(b) <= Abs(a)
    requires q != 0 ==> (q < 0 <==> (a < 0) != (b < 0))
    ensures q == TruncDiv(a, b)
  {
    BracketUnique(Abs(q), Abs(TruncDiv(a, b)), Abs(b), Abs(a));
  }

  /** At most one multiple of `n` lies in `(total - n, total]`. */
  lemma BracketUnique(x: nat, y: nat, n: nat, total: int)
    requires n > 0
    requires total - n < x * n <= total && total - n < y * n <= total
    ensures x == y
  {
    if x < y {
      MulMonotone(x + 1, y, n);
    } else if y < x {
      MulMonotone(y + 1, x, n);
    }
  }

  lemma TruncDivExamples()
    ensures TruncDiv(7, 2) == 3 && TruncDiv(-7, 2) == -3 && TruncDiv(7, -2) == -3 && TruncDiv(-7, -2) == 3
  {
  }
}
