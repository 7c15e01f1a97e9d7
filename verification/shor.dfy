/**
 * The classical simulation of Shor's algorithm in shors_algorithm.py: the
 * period (multiplicative order) search `find_period`, and one pass of the
 * retry loop of `shor_factor` with the random base `a` supplied by the
 * caller.
 */
module Shor {
  import opened Wrappers
  import opened NumberTheory

  // ---------------------------------------------------------------------
  // find_period
  // ---------------------------------------------------------------------

  /** `r` is the order of `a` modulo `n`: the least `r` in 1..n with `a^r mod n == 1`. */
  predicate IsOrder(a: int, n: int, r: int) {
    1 <= r <= n && Pow(a, r) % n == 1 &&
    forall k :: 1 <= k < r ==> Pow(a, k) % n != 1
  }

  /** What `find_period(a, n)` promises: the order of `a`, or `None` when no power up to `a^n` is 1. */
  predicate FindPeriodSpec(a: int, n: int, res: Option<int>) {
    match res
    case Some(r) => IsOrder(a, n, r)
    case None => n >= 1 && forall k :: 1 <= k <= n ==> Pow(a, k) % n != 1
  }

  /**
   * `find_period`: multiply by `a` modulo `n` until the running power is 1,
   * giving up once the exponent exceeds `n`.
   */
  method FindPeriod(a: int, n: int) returns (res: Option<int>)
    requires 0 <= a < n
    ensures FindPeriodSpec(a, n, res)
  {
    var x := a;
    var r := 1;
    ModUnique(a, 0, a, n);
    while x != 1
      invariant 1 <= r <= n
      invariant x == Pow(a, r) % n
      invariant forall k :: 1 <= k < r ==> Pow(a, k) % n != 1
      decreases n - r
    {
      MultiplyStep(a, r + 1, x, n);
      assert x * a == a * x;
      x := (x * a) % n;
      r := r + 1;
      if r > n {
        return None;
      }
    }
    return Some(r);
  }

  /** The order is unique, so `find_period` is determined by its specification. */
  lemma OrderUnique(a: int, n: int, r: int, r': int)
    requires IsOrder(a, n, r) && IsOrder(a, n, r')
    ensures r == r'
  {
  }

  lemma FindPeriodSpecUnique(a: int, n: int, res: Option<int>, res': Option<int>)
    requires FindPeriodSpec(a, n, res) && FindPeriodSpec(a, n, res')
    ensures res == res'
  {
    if res.Some? && res'.Some? {
      OrderUnique(a, n, res.value, res'.value);
    }
  }

  // ---------------------------------------------------------------------
  // One attempt of shor_factor
  // ---------------------------------------------------------------------

  /** The outcome of one pass of `shor_factor`'s loop: a returned pair, or `continue`. */
  datatype Attempt = Factors(p: int, q: int) | Retry

  /**
   * The success test of the period branch for the order `r`: `r` is even,
   * `x = a^(r/2) mod n` is not `n - 1`, and `gcd(x+1, n) * gcd(x-1, n) == n`.
   */
  predicate Splits(a: int, n: int, r: int)
    requires n >= 1 && r >= 0
  {
    r % 2 == 0 &&
    var x := ModPow(a, r / 2, n);
    x != n - 1 && Gcd(x + 1, n) * Gcd(x - 1, n) == n
  }

  /**
   * One pass of `shor_factor(n)` with the base `a` that `random.randint(2, n-1)`
   * drew: an even `n` is split as `(2, n//2)`; otherwise a base sharing a
   * factor with `n` yields that factor, and a coprime base is tried through its
   * period.
   */
  method ShorAttempt(n: int, a: int) returns (res: Attempt)
    requires n % 2 == 0 || 2 <= a <= n - 1
    ensures n % 2 == 0 ==> res == Factors(2, n / 2)
    ensures res.Factors? ==> res.p * res.q == n
    ensures n % 2 != 0 && res.Factors? ==> 1 < res.p < n && 1 < res.q < n
    ensures n % 2 != 0 && Gcd(a, n) != 1 ==> res == Factors(Gcd(a, n), n / Gcd(a, n))
    ensures n % 2 != 0 && Gcd(a, n) == 1 ==>
      (res.Factors? <==> exists r :: IsOrder(a, n, r) && Splits(a, n, r))
    ensures n % 2 != 0 && Gcd(a, n) == 1 && res.Factors? ==>
      exists r :: IsOrder(a, n, r) &&
        res == Factors(Gcd(ModPow(a, r / 2, n) + 1, n), Gcd(ModPow(a, r / 2, n) - 1, n))
  {
    if n % 2 == 0 {
      return Factors(2, n / 2);
    }
    var g := Gcd(a, n);
    if g != 1 {
      SharedFactor(a, n);
      return Factors(g, n / g);
    }
    var period := FindPeriod(a, n);
    if period.None? {
      forall r | IsOrder(a, n, r)
        ensures false
      {
      }
      return Retry;
    }
    var r := period.value;
    forall r' | IsOrder(a, n, r')
      ensures r' == r
    {
      OrderUnique(a, n, r, r');
    }
    if r % 2 != 0 {
      return Retry;
    }
    var x := ModPow(a, r / 2, n);
    if x == n - 1 {
      return Retry;
    }
    var p := Gcd(x + 1, n);
    var q := Gcd(x - 1, n);
    if p * q == n {
      NontrivialSplit(a, n, r);
      return Factors(p, q);
    }
    return Retry;
  }

  /** A base in 2..n-1 sharing a factor `g` with `n` splits `n` into `g` and `n / g`, both proper. */
  lemma SharedFactor(a: int, n: int)
    requires 2 <= a <= n - 1 && Gcd(a, n) != 1
    ensures var g := Gcd(a, n); 1 < g < n && 1 < n / g < n && g * (n / g) == n
  {
    var g := Gcd(a, n);
    DividesBound(g, a);
    assert n % g == 0;
    ProperCofactor(g, n / g, n);
  }

  /** If `g * k == n` with `2 <= g < n`, the cofactor `k` is proper too. */
  lemma ProperCofactor(g: int, k: int, n: int)
    requires 2 <= g < n && g * k == n
    ensures 1 < k < n
  {
    MulAtLeast(g - 1, k);
    assert g * k == (g - 1) * k + k;
  }

  /**
   * When the period branch succeeds on an odd `n`, both gcds are proper
   * factors: `gcd(x-1, n) == n` would make `a^(r/2) mod n == 1` below the
   * order, and `gcd(x+1, n) == n` would make `x == n - 1`.
   */
  lemma NontrivialSplit(a: int, n: int, r: int)
    requires n >= 3 && IsOrder(a, n, r) && Splits(a, n, r)
    ensures var x := ModPow(a, r / 2, n);
      1 < Gcd(x + 1, n) < n && 1 < Gcd(x - 1, n) < n
  {
    var x := ModPow(a, r / 2, n);
    var p, q := Gcd(x + 1, n), Gcd(x - 1, n);
    assert p > 0 && q > 0;
    DividesBound(p, n);
    DividesBound(q, n);
    if q == n {
      // n divides x - 1, and -1 <= x - 1 <= n - 2, so x == 1 ...
      if x - 1 != 0 {
        DividesBound(n, x - 1);
      }
      // ... but r / 2 is a positive exponent below the order.
      ModPowIsPowMod(a, r / 2, n);
      assert false;
    }
    if p == n {
      DividesBound(n, x + 1);
      assert false;
    }
  }
}
