/** Numbers as little-endian sequences of 32-bit limbs, and the machine operations on one limb. */
module Limbs {
  import opened Arithmetic

  const BASE: nat := 0x1_0000_0000
  type Limb = x: int | 0 <= x < BASE

  function Value(s: seq<Limb>): nat {
    if s == [] then 0 else s[0] + BASE * Value(s[1..])
  }

  function Weight(i: nat): nat { Pow(BASE, i) }

  lemma WeightNext(i: nat)
    ensures Weight(i + 1) == BASE * Weight(i) && Weight(i) > 0
  {
    PowPositive(BASE, i);
  }

  lemma WeightSum(i: nat, j: nat)
    ensures Weight(i + j) == Weight(i) * Weight(j)
  {
    PowSum(BASE, i, j);
  }

  lemma {:induction false} ValueBound(s: seq<Limb>)
    ensures Value(s) < Weight(|s|)
  {
    if s != [] {
      ValueBound(s[1..]);
      WeightNext(|s| - 1);
    }
  }

  lemma {:induction false} ValueJoin(a: seq<Limb>, b: seq<Limb>)
    ensures Value(a + b) == Value(a) + Weight(|a|) * Value(b)
  {
    if a == [] {
      assert a + b == b;
    } else {
      assert (a + b)[1..] == a[1..] + b;
      ValueJoin(a[1..], b);
      WeightNext(|a| - 1);
      assert BASE * (Weight(|a| - 1) * Value(b)) == (BASE * Weight(|a| - 1)) * Value(b);
    }
  }

  /** A number is its low limbs plus its high limbs in their place. */
  lemma ValueSplit(s: seq<Limb>, i: nat)
    requires i <= |s|
    ensures Value(s) == Value(s[..i]) + Weight(i) * Value(s[i..])
  {
    assert s == s[..i] + s[i..];
    ValueJoin(s[..i], s[i..]);
  }

  lemma ValueNext(s: seq<Limb>, i: nat)
    requires i < |s|
    ensures Value(s[..i + 1]) == Value(s[..i]) + s[i] * Weight(i)
  {
    assert s[..i + 1] == s[..i] + [s[i]];
    ValueJoin(s[..i], [s[i]]);
    assert Value([s[i]]) == s[i];
  }

  /** Changing one limb changes the value by the difference in its place. */
  lemma {:induction false} ValueUpdate(s: seq<Limb>, i: nat, x: Limb)
    requires i < |s|
    ensures Value(s[i := x]) == Value(s) + (x - s[i]) * Weight(i)
  {
    if i == 0 {
      assert s[i := x][1..] == s[1..];
    } else {
      assert s[i := x][1..] == s[1..][i - 1 := x];
      ValueUpdate(s[1..], i - 1, x);
      WeightNext(i - 1);
      assert BASE * ((x - s[i]) * Weight(i - 1)) == (x - s[i]) * (BASE * Weight(i - 1));
    }
  }

  predicate AllZero(s: seq<Limb>) { forall i :: 0 <= i < |s| ==> s[i] == 0 }

  lemma {:induction false} ValueZero(s: seq<Limb>)
    ensures Value(s) == 0 <==> AllZero(s)
  {
    if s != [] {
      ValueZero(s[1..]);
      assert forall i :: 0 <= i < |s| - 1 ==> s[1..][i] == s[i + 1];
      assert AllZero(s) <==> s[0] == 0 && AllZero(s[1..]);
    }
  }

  // ---------------------------------------------------------------- one limb

  /** n & 0xffffffff and n >> 32 split a double-width number. */
  lemma SplitWord(n: nat)
    ensures n == n % BASE + BASE * (n / BASE)
  {
  }

  function Not(x: Limb): Limb { BASE - 1 - x }

  /** Bitwise or, bit by bit. */
  function Or(a: nat, b: nat): nat
    decreases a + b
  {
    if a == 0 && b == 0 then 0
    else (if a % 2 == 1 || b % 2 == 1 then 1 else 0) + 2 * Or(a / 2, b / 2)
  }

  /** Or-ing numbers without common bits adds them. */
  lemma {:induction false} OrDisjoint(high: nat, low: nat, s: nat)
    requires low < Pow2(s)
    ensures Or(high * Pow2(s), low) == high * Pow2(s) + low
    ensures Or(low, high * Pow2(s)) == high * Pow2(s) + low
    decreases s
  {
    if s == 0 {
      OrZero(high);
      assert high * Pow2(0) == high;
    } else {
      var a := high * Pow2(s);
      assert a == 2 * (high * Pow2(s - 1));
      OrDisjoint(high, low / 2, s - 1);
    }
  }

  /** Setting a bit that is clear adds its weight. */
  lemma {:induction false} OrBit(a: nat, s: nat)
    requires (a / Pow2(s)) % 2 == 0
    ensures Or(a, Pow2(s)) == a + Pow2(s)
  {
    if s == 0 {
      OrZero(a / 2);
    } else {
      HalvedQuotient(a, Pow2(s - 1));
      OrBit(a / 2, s - 1);
    }
  }

  lemma HalvedQuotient(a: nat, p: nat)
    requires p > 0
    ensures a / (2 * p) == a / 2 / p
  {
    DivNat(a / 2, p);
    var q, r := a / 2 / p, a / 2 % p;
    assert a == 2 * (q * p + r) + a % 2;
    assert 2 * (q * p + r) == q * (2 * p) + 2 * r;
    ModUnique(2 * r + a % 2, q, a, 2 * p);
  }

  lemma {:induction false} OrZero(a: nat)
    ensures Or(a, 0) == a && Or(0, a) == a
  {
    if a > 0 {
      OrZero(a / 2);
    }
  }

  // ---------------------------------------------------------------- powers of two and limbs

  lemma Pow2Of32()
    ensures Pow2(32) == BASE
  {
    assert Pow2(4) == 16;
    Pow2Sum(4, 4);
    Pow2Sum(8, 8);
    Pow2Sum(16, 16);
  }

  lemma {:induction false} WeightIsPow2(i: nat)
    ensures Weight(i) == Pow2(32 * i)
  {
    if i > 0 {
      WeightIsPow2(i - 1);
      WeightNext(i - 1);
      Pow2Of32();
      Pow2Sum(32, 32 * (i - 1));
    }
  }

  /** The bit length of a number: the position of its highest one bit plus one. */
  ghost predicate IsBitLength(v: nat, n: nat) {
    if n == 0 then v == 0 else Pow2(n - 1) <= v < Pow2(n)
  }

  lemma BitLengthUnique(v: nat, n: nat, m: nat)
    requires IsBitLength(v, n) && IsBitLength(v, m)
    ensures n == m
  {
    if n < m {
      Pow2Mono(n, m - 1);
    } else if m < n {
      Pow2Mono(m, n - 1);
    }
  }

  // ---------------------------------------------------------------- shifts of one word

  /** x >> s */
  function ShiftDown(x: nat, s: nat): (r: nat) {
    DivNat(x, Pow2(s));
    x / Pow2(s)
  }

  /** x << s on a 32-bit word. */
  function ShiftUp(x: nat, s: nat): (r: Limb) {
    NatMul(x, Pow2(s));
    x * Pow2(s) % BASE
  }
}
