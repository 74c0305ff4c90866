/*
 * Euclid's algorithm, Knuth's extended Algorithm E (TAOCP Vol. 1, section
 * 1.2.1), and the alternating-remainder variant.
 * Integers are unbounded; all remainders here are of positive numbers, where
 * Swift's truncating `%` agrees with Dafny's.
 */
module Euclid {

  /** `d` is a positive divisor of `x`. */
  ghost predicate Divides(d: int, x: int) {
    d > 0 && x % d == 0
  }

  /** `g` is the greatest common divisor of `m` and `n`: every common divisor divides it. */
  ghost predicate IsGcd(g: int, m: int, n: int) {
    Divides(g, m) && Divides(g, n) && forall d :: Divides(d, m) && Divides(d, n) ==> Divides(d, g)
  }

  /** `x - q * y` and `x + q * y` keep every common divisor of `x` and `y`. */
  lemma DividesCombination(d: int, x: int, y: int, q: int)
    requires Divides(d, x) && Divides(d, y)
    ensures Divides(d, x - q * y) && Divides(d, x + q * y)
  {
    var i, j := x / d, y / d;
    assert x == i * d && y == j * d;
    assert x - q * y == (i - q * j) * d by {
      assert q * y == q * (j * d) == (q * j) * d;
    }
    assert x + q * y == (i + q * j) * d by {
      assert q * y == q * (j * d) == (q * j) * d;
    }
    MultipleMod(i - q * j, d);
    MultipleMod(i + q * j, d);
  }

  /** A multiple of `d` leaves no remainder. */
  lemma MultipleMod(k: int, d: int)
    requires d > 0
    ensures (k * d) % d == 0
  {
    var r := (k * d) % d;
    var s := (k * d) / d;
    var t := k - s;
    assert t * d == r by {
      assert k * d == s * d + r;
      assert t * d == k * d - s * d;
    }
  }

  /** One Euclid step keeps the common divisors: those of (m, n) are those of (n, m % n). */
  lemma StepKeepsDivisors(m: int, n: int)
    requires n > 0
    ensures forall d :: Divides(d, m) && Divides(d, n) <==> Divides(d, n) && Divides(d, m % n)
  {
    var q := m / n;
    assert m % n == m - q * n;
    forall d | Divides(d, m) && Divides(d, n)
      ensures Divides(d, m % n)
    {
      DividesCombination(d, m, n, q);
    }
    forall d | Divides(d, n) && Divides(d, m % n)
      ensures Divides(d, m)
    {
      DividesCombination(d, m % n, n, q);
    }
  }

  /** A positive multiple of `d` is at least `d`. */
  lemma DivisorAtMost(d: int, x: int)
    requires Divides(d, x) && x > 0
    ensures d <= x
  {
    var k := x / d;
    assert x == k * d;
    assert k * d >= d;
  }

  /** The greatest common divisor is unique, so every version of gcd returns the same number. */
  lemma GcdUnique(g: int, h: int, m: int, n: int)
    requires m > 0 && IsGcd(g, m, n) && IsGcd(h, m, n)
    ensures g == h
  {
    assert Divides(g, h) && Divides(h, g);
    DivisorAtMost(g, h);
    DivisorAtMost(h, g);
  }

  /** `gcd(m, n)`: replace (m, n) by (n, m % n) until the remainder is zero. */
  method Gcd(m: int, n: int) returns (g: int)
    requires m > 0 && n > 0
    ensures IsGcd(g, m, n)
  {
    var x, y := m, n;
    while true
      invariant x > 0 && y > 0
      invariant forall d :: Divides(d, m) && Divides(d, n) <==> Divides(d, x) && Divides(d, y)
      decreases y
    {
      var r := x % y;
      StepKeepsDivisors(x, y);
      if r == 0 {
        assert Divides(y, x) && Divides(y, y);
        return y;
      }
      x, y := y, r;
    }
  }

  /**
   * `gcdExtended(m, n)`: Algorithm E. Besides d = gcd(m, n) it returns a
   * and b with a*m + b*n = d, keeping aa*m + bb*n = c and a*m + b*n = d.
   */
  method GcdExtended(m: int, n: int) returns (d: int, a: int, b: int)
    requires m > 0 && n > 0
    ensures IsGcd(d, m, n) && a * m + b * n == d
  {
    var aa, bb, c := 1, 0, m;
    a, b, d := 0, 1, n;
    while true
      invariant c > 0 && d > 0
      invariant aa * m + bb * n == c && a * m + b * n == d
      invariant forall x :: Divides(x, m) && Divides(x, n) <==> Divides(x, c) && Divides(x, d)
      decreases d
    {
      var q, r := c / d, c % d;
      StepKeepsDivisors(c, d);
      if r == 0 {
        assert Divides(d, c) && Divides(d, d);
        return;
      }
      var a', b' := aa - q * a, bb - q * b;
      assert a' * m + b' * n == r by {
        assert a' * m + b' * n == (aa * m + bb * n) - q * (a * m + b * n);
      }
      c, d := d, r;
      aa, a := a, a';
      bb, b := b, b';
    }
  }

  /**
   * The variant of taocp1.swift: reduce m by n, then n by m, alternately,
   * returning whichever is left when the other reaches zero.
   */
  method GcdAlternating(m: int, n: int) returns (g: int)
    requires m > 0 && n > 0
    ensures IsGcd(g, m, n)
  {
    var x, y := m, n;
    while true
      invariant x > 0 && y > 0
      invariant forall d :: Divides(d, m) && Divides(d, n) <==> Divides(d, x) && Divides(d, y)
      decreases y
    {
      StepKeepsDivisors(x, y);
      x := x % y;
      if x == 0 {
        assert Divides(y, y);
        return y;
      }
      StepKeepsDivisors(y, x);
      y := y % x;
      if y == 0 {
        assert Divides(x, x);
        return x;
      }
    }
  }
}
