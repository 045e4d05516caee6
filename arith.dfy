/** Facts about Dafny's Euclidean `/` and `%` that the solver does not find by itself. */
module Arith {

  /** A non-zero multiple of a positive `n` is at least `n` away from zero. */
  lemma MulAwayFromZero(n: int, d: int)
    requires n > 0
    ensures d >= 1 ==> n * d >= n
    ensures d <= -1 ==> n * d <= -n
  {
    if d >= 1 {
      assert n * d == n + n * (d - 1);
    } else if d <= -1 {
      assert n * d == -n + n * (d + 1);
    }
  }

  /** Quotient and remainder are unique: any split `x == n * q + r` with `0 <= r < n` is the one `/` and `%` give. */
  lemma DivModUnique(x: int, n: int, q: int, r: int)
    requires n > 0 && 0 <= r < n && x == n * q + r
    ensures x / n == q && x % n == r
  {
    var q', r' := x / n, x % n;
    assert n * (q - q') == r' - r;
    MulAwayFromZero(n, q - q');
  }

  /** A multiple of `n` leaves no remainder. */
  lemma MultipleMod(q: int, n: int)
    requires n > 0
    ensures (n * q) % n == 0
  {
    DivModUnique(n * q, n, q, 0);
  }

  /** Adding `n` does not change the remainder modulo `n`. */
  lemma ModAddPeriod(x: int, n: int)
    requires n > 0
    ensures (x + n) % n == x % n
  {
    DivModUnique(x + n, n, x / n + 1, x % n);
  }

  /** A number below the divisor is its own remainder. */
  lemma SmallMod(x: int, n: int)
    requires n > 0
    ensures 0 <= x < n ==> x % n == x && x / n == 0
  {
    if 0 <= x < n {
      DivModUnique(x, n, 0, x);
    }
  }

  /** Dividing by `a` and then by `b` is dividing by `a * b`. */
  lemma DivDiv(x: int, a: int, b: int)
    requires x >= 0 && a > 0 && b > 0
    ensures a * b > 0 && (x / a) / b == x / (a * b)
  {
    var q1, r1 := x / a, x % a;
    var q2, r2 := q1 / b, q1 % b;
    var ab := a * b;
    assert ab > 0;
    assert a * q1 == ab * q2 + a * r2 by {
      assert q1 == b * q2 + r2;
      assert a * (b * q2 + r2) == a * (b * q2) + a * r2;
      assert a * (b * q2) == (a * b) * q2;
    }
    assert a * r2 <= ab - a by {
      assert ab - a == a * (b - 1);
      assert a * (b - 1) - a * r2 == a * (b - 1 - r2);
      MulAwayFromZero(a, b - 1 - r2);
    }
    assert 0 <= a * r2 by {
      MulAwayFromZero(a, r2);
    }
    DivModUnique(x, ab, q2, a * r2 + r1);
  }
}
