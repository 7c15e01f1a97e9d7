/**
 * Integer arithmetic as Python performs it, and the number-theoretic
 * vocabulary (powers, divisibility, greatest common divisors) in which the
 * RSA, LWE and period-finding code is specified.
 *
 * Python's `//` and `%` round toward minus infinity; Dafny's `/` and `%` on
 * `int` are Euclidean.  The two agree whenever the divisor is positive, which
 * is the case everywhere the source divides by a modulus; `FloorDiv` and
 * `FloorMod` are used where the divisor may be negative.
 */
module NumberTheory {

  function Abs(x: int): nat {
    if x < 0 then -x else x
  }

  /** Python's `b // a`: the quotient rounded toward minus infinity. */
  function FloorDiv(b: int, a: int): (d: int)
    requires a != 0
    ensures a > 0 ==> a * d <= b < a * d + a
    ensures a < 0 ==> a * d + a < b <= a * d
  {
    if a > 0 then b / a else (-b) / (-a)
  }

  /** Python's `b % a`: the remainder takes the sign of the divisor. */
  function FloorMod(b: int, a: int): (r: int)
    requires a != 0
    ensures b == a * FloorDiv(b, a) + r
    ensures a > 0 ==> 0 <= r < a && r == b % a
    ensures a < 0 ==> a < r <= 0
  {
    b - a * FloorDiv(b, a)
  }

  /** `b` raised to the power `e`, the reference meaning of `**` and of `pow`. */
  function Pow(b: int, e: nat): int
    decreases e
  {
    if e == 0 then 1 else b * Pow(b, e - 1)
  }

  /**
   * Python's three-argument `pow(b, e, m)` for a positive modulus, computed by
   * repeated squaring; `ModPowIsPowMod` gives its value.
   */
  function ModPow(b: int, e: nat, m: int): (r: int)
    requires m > 0
    ensures 0 <= r < m
    decreases e
  {
    if e == 0 then
      1 % m
    else if e % 2 == 0 then
      var h := ModPow(b, e / 2, m);
      (h * h) % m
    else
      (b * ModPow(b, e - 1, m)) % m
  }

  /** Repeated squaring computes `b^e mod m`. */
  lemma {:induction false} ModPowIsPowMod(b: int, e: nat, m: int)
    requires m > 0
    ensures ModPow(b, e, m) == Pow(b, e) % m
    decreases e
  {
    if e > 0 {
      if e % 2 == 0 {
        ModPowIsPowMod(b, e / 2, m);
        SquareStep(b, e, ModPow(b, e / 2, m), m);
      } else {
        ModPowIsPowMod(b, e - 1, m);
        MultiplyStep(b, e, ModPow(b, e - 1, m), m);
      }
    }
  }

  lemma SquareStep(b: int, e: nat, h: int, m: int)
    requires m > 0 && e % 2 == 0 && h == Pow(b, e / 2) % m
    ensures (h * h) % m == Pow(b, e) % m
  {
    PowAdd(b, e / 2, e / 2);
    ModMod(Pow(b, e / 2), m);
    ModMulCongruent(h, h, Pow(b, e / 2), Pow(b, e / 2), m);
  }

  lemma MultiplyStep(b: int, e: nat, t: int, m: int)
    requires m > 0 && e > 0 && t == Pow(b, e - 1) % m
    ensures (b * t) % m == Pow(b, e) % m
  {
    ModMod(Pow(b, e - 1), m);
    ModMulRight(b, t, Pow(b, e - 1), m);
  }

  lemma {:induction false} PowAdd(b: int, i: nat, j: nat)
    ensures Pow(b, i + j) == Pow(b, i) * Pow(b, j)
    decreases i
  {
    if i > 0 {
      PowAdd(b, i - 1, j);
      assert Pow(b, i + j) == b * Pow(b, i - 1 + j);
    }
  }

  lemma MulAtLeast(t: int, m: int)
    requires t >= 1 && m > 0
    ensures t * m >= m
  {
    assert t * m == m + (t - 1) * m;
  }

  /** Euclidean division by a positive modulus has a unique quotient and remainder. */
  lemma ModUnique(v: int, k: int, r: int, m: int)
    requires m > 0 && 0 <= r < m && v == k * m + r
    ensures v % m == r && v / m == k
  {
    var t := k - v / m;
    assert t * m == v % m - r;
    if t >= 1 {
      MulAtLeast(t, m);
    }
  }

  lemma ModAddMultiple(a: int, k: int, m: int)
    requires m > 0
    ensures (a + k * m) % m == a % m
  {
    assert a + k * m == (a / m + k) * m + a % m;
    ModUnique(a + k * m, a / m + k, a % m, m);
  }

  /** Congruence modulo `m` is preserved by addition. */
  lemma ModAddCongruent(x: int, y: int, x': int, y': int, m: int)
    requires m > 0 && x % m == x' % m && y % m == y' % m
    ensures (x + y) % m == (x' + y') % m
  {
    var k := (x / m - x' / m) + (y / m - y' / m);
    assert x + y == (x' + y') + k * m;
    ModAddMultiple(x' + y', k, m);
  }

  /** Congruence modulo `m` is preserved by subtraction. */
  lemma ModSubCongruent(x: int, y: int, x': int, y': int, m: int)
    requires m > 0 && x % m == x' % m && y % m == y' % m
    ensures (x - y) % m == (x' - y') % m
  {
    var k := (x / m - x' / m) - (y / m - y' / m);
    assert x - y == (x' - y') + k * m;
    ModAddMultiple(x' - y', k, m);
  }

  lemma ModMulRight(x: int, y: int, y': int, m: int)
    requires m > 0 && y % m == y' % m
    ensures (x * y) % m == (x * y') % m
  {
    var k := y / m - y' / m;
    assert y == y' + k * m;
    assert x * y == x * y' + (x * k) * m by {
      calc {
        x * y;
        x * (y' + k * m);
        x * y' + x * (k * m);
        x * y' + (x * k) * m;
      }
    }
    ModAddMultiple(x * y', x * k, m);
  }

  /** Congruence modulo `m` is preserved by multiplication. */
  lemma ModMulCongruent(x: int, y: int, x': int, y': int, m: int)
    requires m > 0 && x % m == x' % m && y % m == y' % m
    ensures (x * y) % m == (x' * y') % m
  {
    ModMulRight(x, y, y', m);
    ModMulRight(y', x, x', m);
    assert x * y' == y' * x && y' * x' == x' * y';
  }

  lemma ModMod(x: int, m: int)
    requires m > 0
    ensures (x % m) % m == x % m
  {
    ModUnique(x % m, 0, x % m, m);
  }

  /** `d` divides `n`; zero divides only zero. */
  predicate Divides(d: int, n: int) {
    if d == 0 then n == 0 else n % Abs(d) == 0
  }

  lemma DividesLinear(d: int, u: int, v: int, c: int)
    requires Divides(d, u) && Divides(d, v)
    ensures Divides(d, c * u + v)
  {
    if d != 0 {
      var m := Abs(d);
      assert u == (u / m) * m;
      assert v == (v / m) * m;
      assert c * u + v == (c * (u / m) + v / m) * m by {
        calc {
          c * u + v;
          c * ((u / m) * m) + (v / m) * m;
          (c * (u / m)) * m + (v / m) * m;
          (c * (u / m) + v / m) * m;
        }
      }
      ModUnique(c * u + v, c * (u / m) + v / m, 0, m);
    }
  }

  lemma DividesMultiple(d: int, k: int)
    ensures Divides(d, k * d)
  {
    if d != 0 {
      var m := Abs(d);
      if d > 0 {
        ModUnique(k * d, k, 0, m);
      } else {
        assert k * d == (-k) * m;
        ModUnique(k * d, -k, 0, m);
      }
    }
  }

  lemma DividesAbs(d: int, n: int)
    ensures Divides(d, n) <==> Divides(d, Abs(n))
  {
    if Divides(d, n) {
      DividesLinear(d, n, 0, -1);
    }
    if Divides(d, Abs(n)) {
      DividesLinear(d, Abs(n), 0, -1);
    }
  }

  /** A positive divisor of a non-zero number is at most its absolute value. */
  lemma DividesBound(d: int, n: int)
    requires d > 0 && n != 0 && Divides(d, n)
    ensures d <= Abs(n)
  {
    DividesAbs(d, n);
    var a := Abs(n);
    assert a == (a / d) * d + a % d;
    assert a == (a / d) * d;
    MulAtLeast(a / d, d);
  }

  lemma DividesAntisymmetric(g: int, h: int)
    requires g >= 0 && h >= 0 && Divides(g, h) && Divides(h, g)
    ensures g == h
  {
    if g != 0 && h != 0 {
      DividesBound(g, h);
      DividesBound(h, g);
    }
  }

  /** Euclid's algorithm on natural numbers. */
  function GcdNat(x: nat, y: nat): (g: nat)
    ensures Divides(g, x) && Divides(g, y)
    ensures x != 0 || y != 0 ==> g > 0
    decreases y
  {
    if y == 0 then
      DividesMultiple(x, 1);
      DividesMultiple(x, 0);
      x
    else
      var g := GcdNat(y, x % y);
      assert x == (x / y) * y + x % y;
      DividesLinear(g, y, x % y, x / y);
      g
  }

  lemma {:induction false} GcdNatGreatest(d: int, x: nat, y: nat)
    requires Divides(d, x) && Divides(d, y)
    ensures Divides(d, GcdNat(x, y))
    decreases y
  {
    if y != 0 {
      assert x % y == (-(x / y)) * y + x;
      DividesLinear(d, y, x, -(x / y));
      GcdNatGreatest(d, y, x % y);
    }
  }

  /** Python's `math.gcd(a, b)`: the non-negative greatest common divisor. */
  function Gcd(a: int, b: int): (g: nat)
    ensures Divides(g, a) && Divides(g, b)
    ensures a != 0 || b != 0 ==> g > 0
  {
    var g := GcdNat(Abs(a), Abs(b));
    DividesAbs(g, a);
    DividesAbs(g, b);
    g
  }

  /** Every common divisor of `a` and `b` divides `Gcd(a, b)`. */
  lemma GcdGreatest(d: int, a: int, b: int)
    requires Divides(d, a) && Divides(d, b)
    ensures Divides(d, Gcd(a, b))
  {
    DividesAbs(d, a);
    DividesAbs(d, b);
    GcdNatGreatest(d, Abs(a), Abs(b));
  }

  /** Any non-negative common divisor that every common divisor divides is `Gcd(a, b)`. */
  lemma GcdUnique(g: int, a: int, b: int)
    requires g >= 0 && Divides(g, a) && Divides(g, b)
    requires forall d :: Divides(d, a) && Divides(d, b) ==> Divides(d, g)
    ensures g == Gcd(a, b)
  {
    GcdGreatest(g, a, b);
    DividesAntisymmetric(g, Gcd(a, b));
  }

  /** Every character code of `t` fits in one byte (`ord(c) < 256`). */
  predicate IsByteText(t: string) {
    forall i :: 0 <= i < |t| ==> t[i] as int < 256
  }
}
