/** Integer arithmetic as JavaScript's BigInt performs it: exponentiation `**`
    and the remainder operator `%`, which truncates toward zero, so the result
    takes the sign of the dividend. Dafny's own `%` is Euclidean (never
    negative); the lemmas below relate the two through congruence modulo the
    magnitude of the divisor. */
module JsArith {

  /** `b ** e` for a non-negative exponent. */
  function Power(b: int, e: nat): int
    decreases e
  {
    if e == 0 then 1 else b * Power(b, e - 1)
  }

  function Magnitude(x: int): nat
  {
    if x < 0 then -x else x
  }

  /** Both values are non-negative, or both are non-positive. */
  predicate SameSide(x: int, y: int)
  {
    (x >= 0 && y >= 0) || (x <= 0 && y <= 0)
  }

  /** JavaScript's `a % m` on BigInt (a RangeError when `m` is zero, which
      callers rule out): the remainder of the division truncated toward zero. */
  function TRem(a: int, m: int): (r: int)
    requires m != 0
    ensures Magnitude(r) < Magnitude(m)
    ensures SameSide(r, a)
    ensures r % Magnitude(m) == a % Magnitude(m)
  {
    var n := Magnitude(m);
    if a >= 0 then
      ModUnique(a % n, n, 0, a % n);
      a % n
    else
      ModNeg(-a, n);
      -((-a) % n)
  }

  /** Euclidean division has a unique quotient and remainder. */
  lemma ModUnique(x: int, n: int, q: int, r: int)
    requires n > 0 && 0 <= r < n && x == n * q + r
    ensures x % n == r
  {
    var q0, r0 := x / n, x % n;
    assert n * (q - q0) == r0 - r;
    if q - q0 >= 1 {
      MulAtLeast(n, q - q0);
    } else if q - q0 <= -1 {
      MulAtLeast(n, q0 - q);
    }
  }

  lemma MulAtLeast(n: int, k: int)
    requires n > 0 && k >= 1
    ensures n * k >= n
  {
    assert n * k == n * (k - 1) + n;
  }

  lemma ModAddMultiple(x: int, n: int, k: int)
    requires n > 0
    ensures (n * k + x) % n == x % n
  {
    assert n * k + x == n * (k + x / n) + x % n;
    ModUnique(n * k + x, n, k + x / n, x % n);
  }

  lemma ModNeg(a: int, n: int)
    requires n > 0
    ensures (-a) % n == (-(a % n)) % n
  {
    assert -a == n * (-(a / n)) + -(a % n);
    ModAddMultiple(-(a % n), n, -(a / n));
  }

  lemma MulMod(a: int, b: int, n: int)
    requires n > 0
    ensures (a * b) % n == ((a % n) * (b % n)) % n
  {
    var qa, ra, qb, rb := a / n, a % n, b / n, b % n;
    calc {
      a * b;
      (n * qa + ra) * b;
      n * (qa * b) + ra * b;
      n * (qa * b) + ra * (n * qb + rb);
      n * (qa * b + ra * qb) + ra * rb;
    }
    ModAddMultiple(ra * rb, n, qa * b + ra * qb);
  }

  /** Congruence modulo `n` is preserved by multiplication. */
  lemma MulCong(a: int, b: int, c: int, d: int, n: int)
    requires n > 0 && a % n == b % n && c % n == d % n
    ensures (a * c) % n == (b * d) % n
  {
    MulMod(a, c, n);
    MulMod(b, d, n);
  }

  /** Congruence modulo `n` is preserved by raising to a power. */
  lemma {:induction false} PowerCong(a: int, b: int, k: nat, n: int)
    requires n > 0 && a % n == b % n
    ensures Power(a, k) % n == Power(b, k) % n
  {
    if k > 0 {
      PowerCong(a, b, k - 1, n);
      MulCong(a, b, Power(a, k - 1), Power(b, k - 1), n);
    }
  }

  /** Squaring the base halves the exponent. */
  lemma {:induction false} PowerSquare(b: int, k: nat)
    ensures Power(b, 2 * k) == Power(b * b, k)
  {
    if k > 0 {
      PowerSquare(b, k - 1);
      calc {
        Power(b, 2 * k);
        b * (b * Power(b, 2 * k - 2));
        (b * b) * Power(b, 2 * (k - 1));
      }
    }
  }

  lemma {:induction false} PowerAdd(b: int, i: nat, j: nat)
    ensures Power(b, i + j) == Power(b, i) * Power(b, j)
  {
    if i > 0 {
      PowerAdd(b, i - 1, j);
      assert Power(b, i + j) == b * Power(b, i - 1 + j);
    }
  }

  lemma {:induction false} PowerNonneg(b: int, k: nat)
    requires b >= 0
    ensures Power(b, k) >= 0
  {
    if k > 0 {
      PowerNonneg(b, k - 1);
    }
  }

  /** Powers of two grow strictly with the exponent. */
  lemma {:induction false} PowerOfTwoStrict(i: nat, j: nat)
    requires i < j
    ensures 0 < Power(2, i) < Power(2, j)
  {
    if i + 1 == j {
      PowerOfTwoPositive(i);
    } else {
      PowerOfTwoStrict(i, j - 1);
    }
  }

  lemma {:induction false} PowerOfTwoPositive(i: nat)
    ensures Power(2, i) > 0
  {
    if i > 0 {
      PowerOfTwoPositive(i - 1);
    }
  }

  lemma SameSideScale(a: int, b: int, c: int, d: int)
    requires SameSide(a, b) && c >= 0 && d >= 0
    ensures SameSide(a * c, b * d)
  {
    if a >= 0 && b >= 0 {
      assert a * c >= 0 && b * d >= 0;
    } else {
      assert a * c <= 0 && b * d <= 0;
    }
  }

  /** Two congruent values on the same side of zero have the same truncated
      remainder. */
  lemma TRemCongruent(x: int, y: int, m: int)
    requires m != 0
    requires x % Magnitude(m) == y % Magnitude(m) && SameSide(x, y)
    ensures TRem(x, m) == TRem(y, m)
  {
    var n := Magnitude(m);
    if !(x >= 0 && y >= 0) {
      ModUnique(0, n, 0, 0);
      ModNeg(x, n);
      ModNeg(y, n);
      assert TRem(x, m) == -((-x) % n);
      assert TRem(y, m) == -((-y) % n);
    }
  }

  /** A value already smaller in magnitude than the divisor is its own
      truncated remainder. */
  lemma TRemSmall(x: int, m: int)
    requires m != 0 && Magnitude(x) < Magnitude(m)
    ensures TRem(x, m) == x
  {
    var n := Magnitude(m);
    if x >= 0 {
      ModUnique(x, n, 0, x);
    } else {
      ModUnique(-x, n, 0, -x);
    }
  }

  /** The three properties in TRem's contract determine it: any value that is
      congruent to `a`, smaller than the divisor in magnitude and on `a`'s side
      of zero is `a % m`. */
  lemma TRemUnique(a: int, m: int, r: int)
    requires m != 0
    requires Magnitude(r) < Magnitude(m) && SameSide(r, a)
    requires r % Magnitude(m) == a % Magnitude(m)
    ensures r == TRem(a, m)
  {
    TRemCongruent(r, a, m);
    TRemSmall(r, m);
  }

  /** On a non-negative dividend the truncated and the Euclidean remainder agree. */
  lemma TRemOfNonneg(a: int, m: int)
    requires m > 0 && a >= 0
    ensures TRem(a, m) == a % m
  {
  }
}
