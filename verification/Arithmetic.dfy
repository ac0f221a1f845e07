/** Powers and small facts about products and quotients, shared by the modules that work with
    positions and digits. */
module Arithmetic {

  function Pow(b: nat, e: nat): nat {
    if e == 0 then 1 else b * Pow(b, e - 1)
  }

  function Pow2(e: nat): (p: nat)
    ensures p > 0
  {
    if e == 0 then 1 else 2 * Pow2(e - 1)
  }

  lemma {:induction false} PowPositive(b: nat, e: nat)
    requires b > 0
    ensures Pow(b, e) > 0
  {
    if e > 0 { PowPositive(b, e - 1); }
  }

  lemma PowNext(b: nat, e: nat)
    ensures Pow(b, 0) == 1 && Pow(b, e + 1) == b * Pow(b, e)
  {
  }

  lemma {:induction false} PowSum(b: nat, e: nat, f: nat)
    ensures Pow(b, e + f) == Pow(b, e) * Pow(b, f)
  {
    hide Pow;
    if e == 0 {
      PowNext(b, 0);
    } else {
      PowSum(b, e - 1, f);
      PowNext(b, e - 1);
      PowNext(b, e - 1 + f);
      Assoc(b, Pow(b, e - 1), Pow(b, f));
    }
  }

  lemma Pow2Zero()
    ensures Pow2(0) == 1
  {
  }

  lemma Pow2Next(e: nat)
    ensures Pow2(e + 1) == 2 * Pow2(e)
  {
  }

  lemma {:induction false} Pow2Sum(e: nat, f: nat)
    ensures Pow2(e + f) == Pow2(e) * Pow2(f)
  {
    hide Pow2;
    if e == 0 {
      Pow2Zero();
    } else {
      Pow2Sum(e - 1, f);
      Pow2Next(e - 1);
      Pow2Next(e - 1 + f);
      Assoc(2, Pow2(e - 1), Pow2(f));
    }
  }

  lemma {:induction false} Pow2Mono(e: nat, f: nat)
    requires e <= f
    ensures Pow2(e) <= Pow2(f)
  {
    if e < f {
      Pow2Mono(e, f - 1);
    }
  }

  // ---------------------------------------------------------------- products and quotients

  lemma {:induction false} NatMul(a: nat, b: nat)
    ensures a * b >= 0
  {
    if a > 0 {
      NatMul(a - 1, b);
      assert a * b == (a - 1) * b + b;
    }
  }

  lemma MulAtLeast(a: int, m: nat)
    requires a >= 1
    ensures a * m >= m
  {
    assert a * m == m + (a - 1) * m;
    NatMul(a - 1, m);
  }

  lemma Assoc(a: int, b: int, c: int)
    ensures a * b * c == a * (b * c)
  {
  }

  /** Quotient and remainder are what any such decomposition says. */
  lemma ModUnique(x: nat, k: int, n: int, m: nat)
    requires x < m && n == x + k * m
    ensures x == n % m && k == n / m
  {
    var q, r := n / m, n % m;
    assert n == m * q + r;
    assert (q - k) * m == q * m - k * m == x - r;
    assert (k - q) * m == k * m - q * m == r - x;
    if q - k >= 1 {
      MulAtLeast(q - k, m);
    } else if q - k <= -1 {
      MulAtLeast(k - q, m);
    }
  }

  lemma DivNat(x: nat, d: nat)
    requires d > 0
    ensures 0 <= x / d && x == (x / d) * d + x % d && 0 <= x % d < d
  {
    var q := x / d;
    assert x == d * q + x % d;
    assert (-q) * d == -(d * q);
    if q < 0 {
      MulAtLeast(-q, d);
    }
  }

  lemma DivBelow(x: nat, p: nat, q: nat)
    requires q > 0 && x < q * p
    ensures 0 <= x / q < p
  {
    DivNat(x, q);
    var h := x / q;
    assert (h - p) * q == h * q - q * p;
    if h >= p {
      NatMul(h - p, q);
    }
  }

  lemma LessScaled(a: nat, b: nat, p: nat)
    requires a < b && p > 0
    ensures a * p < b * p
  {
    MulAtLeast(b - a, p);
    assert b * p == a * p + (b - a) * p;
  }

  lemma NoLess(a: nat, b: nat, p: nat)
    requires a <= b
    ensures a * p <= b * p
  {
    NatMul(b - a, p);
    assert b * p == a * p + (b - a) * p;
  }
}
