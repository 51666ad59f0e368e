/**
 Powers modulo a number: what the two sides of the key exchange compute.
 */
module Modular {
  import opened ByteStrings

  function ModPow(b: nat, e: nat, n: nat): (r: nat)
    requires n > 0
    ensures r < n
  {
    Pow(b, e) % n
  }

  lemma ModUnique(a: int, q: int, r: int, n: nat)
    requires n > 0 && a == q * n + r && 0 <= r < n
    ensures a % n == r
  {
    var q', r' := a / n, a % n;
    assert a == q' * n + r';
    assert (q - q') * n == r' - r by {
      assert (q - q') * n == q * n - q' * n;
    }
    MulApart(q - q', n);
  }

  lemma MulApart(d: int, n: int)
    requires n > 0
    ensures d >= 1 ==> d * n >= n
    ensures d <= -1 ==> d * n <= -n
  {
    if d >= 1 {
      assert d * n == (d - 1) * n + n;
    } else if d <= -1 {
      assert d * n == (d + 1) * n - n;
    }
  }

  lemma ModAddMultiple(a: int, k: int, n: nat)
    requires n > 0
    ensures (a + k * n) % n == a % n
  {
    var q, r := a / n, a % n;
    assert a + k * n == (q + k) * n + r by {
      assert (q + k) * n == q * n + k * n;
    }
    ModUnique(a + k * n, q + k, r, n);
  }

  lemma ModMul(a: nat, b: nat, n: nat)
    requires n > 0
    ensures ((a % n) * b) % n == (a * b) % n
  {
    var q, r := a / n, a % n;
    assert a * b == r * b + (q * b) * n by {
      assert a * b == (q * n + r) * b;
      assert (q * n + r) * b == (q * n) * b + r * b;
      assert (q * n) * b == (q * b) * n;
    }
    ModAddMultiple(r * b, q * b, n);
  }

  /** Reducing the base first changes nothing. */
  lemma {:induction false} PowOfMod(x: nat, e: nat, n: nat)
    requires n > 0
    ensures Pow(x % n, e) % n == Pow(x, e) % n
  {
    if e > 0 {
      var y := x % n;
      PowOfMod(x, e - 1, n);
      calc {
        Pow(y, e) % n;
        (y * Pow(y, e - 1)) % n;
        { ModMul(x, Pow(y, e - 1), n); }
        (x * Pow(y, e - 1)) % n;
        { assert x * Pow(y, e - 1) == Pow(y, e - 1) * x; ModMul(Pow(y, e - 1), x, n); }
        ((Pow(y, e - 1) % n) * x) % n;
        ((Pow(x, e - 1) % n) * x) % n;
        { ModMul(Pow(x, e - 1), x, n); }
        (Pow(x, e - 1) * x) % n;
        { assert Pow(x, e - 1) * x == x * Pow(x, e - 1); }
        Pow(x, e) % n;
      }
    }
  }

  lemma {:induction false} PowAdd(x: nat, a: nat, b: nat)
    ensures Pow(x, a + b) == Pow(x, a) * Pow(x, b)
  {
    if a > 0 {
      PowAdd(x, a - 1, b);
      assert x * (Pow(x, a - 1) * Pow(x, b)) == (x * Pow(x, a - 1)) * Pow(x, b);
    }
  }

  lemma {:induction false} PowOfPow(x: nat, a: nat, b: nat)
    ensures Pow(Pow(x, a), b) == Pow(x, a * b)
  {
    if b > 0 {
      PowOfPow(x, a, b - 1);
      assert a * b == a + a * (b - 1);
      PowAdd(x, a, a * (b - 1));
    } else {
      assert a * b == 0;
    }
  }

  /** Both sides of the exchange arrive at one number, whatever the generator, the exponents and the modulus. */
  lemma KeyAgreement(g: nat, a: nat, b: nat, n: nat)
    requires n > 0
    ensures ModPow(ModPow(g, a, n), b, n) == ModPow(ModPow(g, b, n), a, n)
  {
    PowOfMod(Pow(g, a), b, n);
    PowOfMod(Pow(g, b), a, n);
    PowOfPow(g, a, b);
    PowOfPow(g, b, a);
    assert a * b == b * a;
  }

  /** No factor for exponent zero, and one more for each step: what decides the power. */
  lemma ModPowSteps(b: nat, e: nat, n: nat)
    requires n > 0
    ensures ModPow(b, 0, n) == 1 % n
    ensures ModPow(b, e + 1, n) == ModPow(b, e, n) * b % n
  {
    ModMul(Pow(b, e), b, n);
    assert b * Pow(b, e) == Pow(b, e) * b;
  }

  /** The range a server's public value must lie in. */
  predicate InRange(v: nat, n: nat)
    requires n >= 2
  {
    2 <= v <= n - 2
  }

  /** A value congruent to 0, 1 or -1. */
  predicate Degenerate(v: nat, n: nat)
    requires n >= 2
  {
    v % n == 0 || v % n == 1 || v % n == n - 1
  }

  /** A degenerate value confines the shared secret to three numbers, whatever the private key. */
  lemma {:induction false} DegenerateConfines(v: nat, e: nat, n: nat)
    requires n >= 2 && Degenerate(v, n)
    ensures ModPow(v, e, n) == 0 || ModPow(v, e, n) == 1 || ModPow(v, e, n) == n - 1
  {
    PowOfMod(v, e, n);
    if e == 0 {
      ModUnique(1, 0, 1, n);
    } else {
      DegenerateConfines(v, e - 1, n);
      var r := ModPow(v, e - 1, n);
      ProductConfined(v % n, r, n);
      calc {
        ModPow(v, e, n);
        (v * Pow(v, e - 1)) % n;
        { ModMul(v, Pow(v, e - 1), n); }
        ((v % n) * Pow(v, e - 1)) % n;
        { assert (v % n) * Pow(v, e - 1) == Pow(v, e - 1) * (v % n); ModMul(Pow(v, e - 1), v % n, n); }
        (r * (v % n)) % n;
      }
    }
  }

  lemma ProductConfined(a: nat, r: nat, n: nat)
    requires n >= 2
    requires a == 0 || a == 1 || a == n - 1
    requires r == 0 || r == 1 || r == n - 1
    ensures (r * a) % n == 0 || (r * a) % n == 1 || (r * a) % n == n - 1
  {
    if a == 0 || r == 0 {
      assert r * a == 0;
    } else if a == 1 {
      ModUnique(r, 0, r, n);
    } else if r == 1 {
      ModUnique(a, 0, a, n);
    } else {
      assert r * a == (n - 2) * n + 1 by {
        assert (n - 1) * (n - 1) == (n - 2) * n + 1;
      }
      ModUnique(r * a, n - 2, 1, n);
    }
  }

  /** The range check refuses every degenerate value, and below the modulus refuses nothing else. */
  lemma RangeRefusesDegenerate(v: nat, n: nat)
    requires n >= 2
    ensures InRange(v, n) ==> !Degenerate(v, n)
    ensures v < n ==> (InRange(v, n) <==> !Degenerate(v, n))
    ensures v >= n ==> !InRange(v, n)
  {
    if v < n {
      ModUnique(v, 0, v, n);
    }
  }
}
