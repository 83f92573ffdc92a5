/**
 * The modular-arithmetic helpers of the affine cipher (tp02.py:3-26):
 * Euclid's gcd, the extended Euclidean algorithm and the modular inverse.
 *
 * Python's `//` and `%` round toward minus infinity, so the remainder takes
 * the sign of the divisor. Dafny's `/` and `%` are Euclidean. `PyDiv` and
 * `PyMod` restate Python's operators for every non-zero divisor, so the
 * model needs no sign restriction on its inputs.
 */
module ModularArithmetic {
  import opened Wrappers

  function Abs(n: int): nat { if n < 0 then -n else n }

  /** Python's floor division `a // b`: the largest `q` with `b * q` not beyond `a` on the divisor's side. */
  function PyDiv(a: int, b: int): (q: int)
    requires b != 0
    ensures b > 0 ==> b * q <= a < b * q + b
    ensures b < 0 ==> b * q + b < a <= b * q
  {
    if b > 0 then a / b else (-a) / (-b)
  }

  /** Python's remainder `a % b`: it has the sign of `b` and is smaller than `b` in magnitude. */
  function PyMod(a: int, b: int): (r: int)
    requires b != 0
    ensures a == b * PyDiv(a, b) + r
    ensures b > 0 ==> 0 <= r < b
    ensures b < 0 ==> b < r <= 0
  {
    if b > 0 then a % b else -((-a) % (-b))
  }

  /** A positive multiple of a positive number is at least that number. */
  lemma MulAtLeast(m: int, d: int)
    requires m > 0 && d >= 1
    ensures m * d >= m
  {
    var e := d - 1;
    assert m * d == m + m * e;
  }

  /** Division with remainder has one answer: a quotient and a remainder in range are Dafny's. */
  lemma DivModUnique(n: int, m: int, q: int, r: int)
    requires m > 0 && 0 <= r < m && n == m * q + r
    ensures n / m == q && n % m == r
  {
    var q0, r0 := n / m, n % m;
    assert m * q0 + r0 == m * q + r;
    assert m * (q - q0) == r0 - r;
    if q > q0 {
      MulAtLeast(m, q - q0);
    } else if q < q0 {
      MulAtLeast(m, q0 - q);
    }
  }

  /** Adding a multiple of the divisor does not change Python's remainder. */
  lemma PyModShift(n: int, m: int, k: int)
    requires m != 0
    ensures PyMod(n + m * k, m) == PyMod(n, m)
  {
    if m > 0 {
      DivModUnique(n + m * k, m, n / m + k, n % m);
    } else {
      assert -(n + m * k) == -n + (-m) * k;
      DivModUnique(-n + (-m) * k, -m, (-n) / (-m) + k, (-n) % (-m));
    }
  }

  /** `d` divides `n` (every integer divides 0; 0 divides only 0). */
  predicate Divides(d: int, n: int)
  {
    if d == 0 then n == 0 else PyMod(n, d) == 0
  }

  /** A multiple of `d` is divisible by `d`. */
  lemma DividesMultiple(d: int, k: int)
    ensures Divides(d, d * k)
  {
    if d != 0 {
      PyModShift(0, d, k);
    }
  }

  /** A common divisor of `x` and `y` divides `x + k * y`. */
  lemma DividesCombination(d: int, x: int, y: int, k: int)
    requires Divides(d, x) && Divides(d, y)
    ensures Divides(d, x + k * y)
  {
    if d != 0 {
      var qx, qy := PyDiv(x, d), PyDiv(y, d);
      assert x + k * y == d * (qx + k * qy) by {
        assert x == d * qx && y == d * qy;
      }
      DividesMultiple(d, qx + k * qy);
    }
  }

  /**
   * The greatest common divisor as Euclid's recursion computes it, with
   * Python's remainder: the function that `pgcd` (tp02.py:3-6) computes
   * with its loop.
   */
  function Gcd(a: int, b: int): (g: int)
    ensures b > 0 ==> g > 0
    ensures b < 0 ==> g < 0
    decreases Abs(b)
  {
    if b == 0 then a else Gcd(b, PyMod(a, b))
  }

  /** `Gcd(a, b)` divides both `a` and `b`. */
  lemma {:induction false} GcdDividesBoth(a: int, b: int)
    ensures Divides(Gcd(a, b), a) && Divides(Gcd(a, b), b)
    decreases Abs(b)
  {
    if b == 0 {
      DividesMultiple(a, 1);
      DividesMultiple(a, 0);
    } else {
      var q, r := PyDiv(a, b), PyMod(a, b);
      var g := Gcd(b, r);
      assert Gcd(a, b) == g;
      GcdDividesBoth(b, r);
      DividesCombination(g, r, b, q);
      assert r + q * b == a;
    }
  }

  /** Every common divisor of `a` and `b` divides `Gcd(a, b)`: it is the greatest. */
  lemma {:induction false} GcdIsGreatest(a: int, b: int, d: int)
    requires Divides(d, a) && Divides(d, b)
    ensures Divides(d, Gcd(a, b))
    decreases Abs(b)
  {
    if b != 0 {
      var q, r := PyDiv(a, b), PyMod(a, b);
      DividesCombination(d, a, b, -q);
      assert a + (-q) * b == r;
      GcdIsGreatest(b, r, d);
    }
  }

  /** `pgcd` (tp02.py:3-6): Euclid's loop, reassigning the pair until the second is 0. */
  method EuclidGcd(a0: int, b0: int) returns (g: int)
    ensures g == Gcd(a0, b0)
    ensures b0 == 0 ==> g == a0
    ensures Divides(g, a0) && Divides(g, b0)
    ensures forall d :: Divides(d, a0) && Divides(d, b0) ==> Divides(d, g)
  {
    var a, b := a0, b0;
    while b != 0
      invariant Gcd(a, b) == Gcd(a0, b0)
      decreases Abs(b)
    {
      a, b := b, PyMod(a, b);
    }
    g := a;
    GcdDividesBoth(a0, b0);
    forall d | Divides(d, a0) && Divides(d, b0) ensures Divides(d, g) {
      GcdIsGreatest(a0, b0, d);
    }
  }

  /** One step of the extended algorithm keeps Bézout's identity (the algebra of tp02.py:14-15). */
  lemma BezoutStep(a: int, m: int, q: int, r: int, x1: int, y1: int)
    requires a == m * q + r
    ensures a * y1 + m * (x1 - q * y1) == m * x1 + r * y1
  {
    var t := q * y1;
    assert a * y1 == (m * q) * y1 + r * y1;
    assert (m * q) * y1 == m * t;
    assert m * (x1 - t) == m * x1 - m * t;
  }

  /** A Bézout triple: `g` with coefficients `x`, `y`. */
  datatype Bezout = Bezout(g: int, x: int, y: int)

  /**
   * `euclide_etendu` (tp02.py:9-17): the recursive extended Euclidean
   * algorithm. Its `g` is Euclid's gcd and `x`, `y` satisfy Bézout's identity.
   */
  function ExtendedEuclid(a: int, m: int): (r: Bezout)
    ensures a * r.x + m * r.y == r.g
    ensures r.g == Gcd(a, m)
    decreases Abs(m)
  {
    if m == 0 then Bezout(a, 1, 0)
    else
      var inner := ExtendedEuclid(m, PyMod(a, m));
      var q := PyDiv(a, m);
      BezoutStep(a, m, q, PyMod(a, m), inner.x, inner.y);
      Bezout(inner.g, inner.y, inner.x - q * inner.y)
  }

  /**
   * From `a * x + m * y == 1`, the normalisation `(x % m + m) % m` of tp02.py:26
   * is an inverse of `a` modulo `m`.
   */
  lemma NormalisedInverse(a: int, m: int, x: int, y: int)
    requires m != 0 && a * x + m * y == 1
    ensures PyMod(a * PyMod(PyMod(x, m) + m, m), m) == PyMod(1, m)
  {
    var j := PyDiv(x, m);
    var shifted := PyMod(x, m) + m;
    assert shifted == x + m * (1 - j);
    PyModShift(x, m, 1 - j);
    var inv := PyMod(shifted, m);
    assert inv == x + m * (-j);
    var k := -y - a * j;
    assert a * inv == 1 + m * k by {
      assert a * inv == a * x + a * (m * (-j));
      assert a * (m * (-j)) == m * (-(a * j));
    }
    PyModShift(1, m, k);
  }

  /**
   * `inverse_modulaire` (tp02.py:20-26): `None` exactly when the gcd is not 1;
   * otherwise the Bézout coefficient of `a`, normalised by `(x % m + m) % m`,
   * which is a multiplicative inverse of `a` modulo `m` in the range of `m`.
   * With `m == 0` and `a == 1` the source divides by zero, hence the requires.
   */
  function Inverse(a: int, m: int): (r: Option<int>)
    requires m != 0 || a != 1
    ensures r.None? <==> Gcd(a, m) != 1
    ensures r.Some? ==> m != 0 && PyMod(a * r.value, m) == PyMod(1, m)
    ensures r.Some? && m > 0 ==> 0 <= r.value < m && (a * r.value) % m == 1 % m
    ensures r.Some? && m < 0 ==> m < r.value <= 0
  {
    var e := ExtendedEuclid(a, m);
    if e.g != 1 then None
    else
      var inv := PyMod(PyMod(e.x, m) + m, m);
      NormalisedInverse(a, m, e.x, e.y);
      Some(inv)
  }
}
