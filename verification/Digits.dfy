/** Big-endian digits of numbers in any base, and multiplying them in place. */
module Digits {
  import opened Arithmetic

  function Value(s: seq<nat>, b: nat): nat {
    if s == [] then 0
    else
      NatMul(Value(s[..|s| - 1], b), b);
      Value(s[..|s| - 1], b) * b + s[|s| - 1]
  }

  predicate InBase(s: seq<nat>, b: nat) { forall i :: 0 <= i < |s| ==> s[i] < b }

  /** The shortest digit sequence; zero has none. */
  function DigitsOf(v: nat, b: nat): seq<nat>
    requires b >= 2
  {
    if v == 0 then []
    else
      Smaller(v, b);
      DigitsOf(v / b, b) + [v % b]
  }

  lemma Smaller(v: nat, b: nat)
    requires v > 0 && b >= 2
    ensures 0 <= v / b < v && 0 <= v % b < b && v == v / b * b + v % b
  {
    DivNat(v, b);
    var q := v / b;
    NatMul(q, b - 2);
    assert q * b == 2 * q + q * (b - 2);
  }

  lemma ValueNext(s: seq<nat>, d: nat, b: nat)
    ensures Value(s + [d], b) == Value(s, b) * b + d
  {
    assert (s + [d])[..|s|] == s;
  }

  lemma {:induction false} ValueOfDigits(v: nat, b: nat)
    requires b >= 2
    ensures Value(DigitsOf(v, b), b) == v && InBase(DigitsOf(v, b), b)
    ensures v > 0 ==> DigitsOf(v, b) != [] && DigitsOf(v, b)[0] != 0
    decreases v
  {
    if v > 0 {
      Smaller(v, b);
      ValueOfDigits(v / b, b);
      hide Value;
      ValueNext(DigitsOf(v / b, b), v % b, b);
      if v / b == 0 {
        assert 0 * b == 0;
      }
    } else {
      assert Value([], b) == 0;
    }
  }

  lemma {:induction false} ValuePositive(s: seq<nat>, b: nat)
    requires b >= 2 && s != [] && s[0] != 0
    ensures Value(s, b) > 0
  {
    if |s| > 1 {
      ValuePositive(s[..|s| - 1], b);
      MulAtLeast(Value(s[..|s| - 1], b), b);
    } else {
      assert s[..0] == [] && Value([], b) == 0;
      assert 0 * b == 0;
    }
  }

  lemma {:induction false} DigitsOfValue(s: seq<nat>, b: nat)
    requires b >= 2 && InBase(s, b) && (s != [] ==> s[0] != 0)
    ensures DigitsOf(Value(s, b), b) == s
  {
    if s != [] {
      var high, d := s[..|s| - 1], s[|s| - 1];
      ValuePositive(s, b);
      ModUnique(d, Value(high, b), Value(s, b), b);
      DigitsOfValue(high, b);
      assert s == high + [d];
    }
  }

  lemma {:induction false} ValueJoin(s: seq<nat>, r: seq<nat>, b: nat)
    ensures Value(s + r, b) == Value(s, b) * Pow(b, |r|) + Value(r, b)
  {
    if r == [] {
      assert s + r == s;
      assert Pow(b, 0) == 1;
    } else {
      var n := |r| - 1;
      assert (s + r)[..|s + r| - 1] == s + r[..n];
      ValueJoin(s, r[..n], b);
      var x, p, y := Value(s, b), Pow(b, n), Value(r[..n], b);
      assert (x * p + y) * b == x * (b * p) + y * b;
    }
  }

  lemma ValueHead(d: nat, s: seq<nat>, b: nat)
    ensures Value([d] + s, b) == d * Pow(b, |s|) + Value(s, b)
  {
    ValueJoin([d], s, b);
    assert [d][..0] == [] && Value([], b) == 0 && 0 * b == 0;
    assert Value([d], b) == d;
  }

  lemma {:induction false} ValueBound(s: seq<nat>, b: nat)
    requires InBase(s, b)
    ensures Value(s, b) < Pow(b, |s|)
  {
    if s != [] {
      var high := s[..|s| - 1];
      ValueBound(high, b);
      NoLess(Value(high, b) + 1, Pow(b, |high|), b);
      assert (Value(high, b) + 1) * b == Value(high, b) * b + b;
    }
  }

  predicate AllZero(s: seq<nat>) { forall i :: 0 <= i < |s| ==> s[i] == 0 }

  lemma {:induction false} ValueZeros(z: seq<nat>, s: seq<nat>, b: nat)
    requires AllZero(z)
    ensures Value(z + s, b) == Value(s, b)
  {
    if z == [] {
      assert z + s == s;
    } else {
      assert z + s == [0] + (z[1..] + s);
      ValueHead(0, z[1..] + s, b);
      assert 0 * Pow(b, |z[1..] + s|) == 0;
      ValueZeros(z[1..], s, b);
    }
  }

  // ---------------------------------------------------------------- multiply and add in place

  /** The lowest `i` digits of `was`, times m plus c, are now the lowest digits of `a` and a carry. */
  ghost predicate CarriedSoFar(was: seq<nat>, a: seq<nat>, b: nat, m: nat, c: nat, carry: nat, i: nat) {
    && |a| == |was| && i <= |a| && InBase(a, b)
    && a[..|a| - i] == was[..|a| - i]
    && Value(a[|a| - i..], b) + carry * Pow(b, i) == Value(was[|a| - i..], b) * m + c
  }

  lemma CarryStart(a: seq<nat>, b: nat, m: nat, c: nat)
    requires InBase(a, b)
    ensures CarriedSoFar(a, a, b, m, c, c, 0)
  {
    assert a[|a|..] == [];
    assert 0 * m == 0 && c * Pow(b, 0) == c;
  }

  function CarryIn(carry: nat, m: nat, d: nat): (t: nat) {
    NatMul(m, d);
    carry + m * d
  }

  function CarryOut(t: nat, b: nat): (c: nat)
    requires b > 0
  {
    DivNat(t, b);
    t / b
  }

  lemma CarryStep(was: seq<nat>, a: seq<nat>, b: nat, m: nat, c: nat, carry: nat, i: nat)
    requires b > 0 && i < |a| && CarriedSoFar(was, a, b, m, c, carry, i)
    ensures var p := |a| - 1 - i;
            var t := CarryIn(carry, m, a[p]);
            CarriedSoFar(was, a[p := t % b], b, m, c, CarryOut(t, b), i + 1)
  {
    hide Value, Pow;
    var p := |a| - 1 - i;
    var t := CarryIn(carry, m, a[p]);
    DivNat(t, b);
    WeightNext(b, i);
    var next := a[p := t % b];
    assert a[p] == a[..p + 1][p] == was[..p + 1][p] == was[p];
    assert next[p..] == [t % b] + a[p + 1..];
    assert was[p..] == [was[p]] + was[p + 1..];
    ValueHead(t % b, a[p + 1..], b);
    ValueHead(was[p], was[p + 1..], b);
    assert next[..p] == a[..p + 1][..p] == was[..p + 1][..p] == was[..p];
    CarryAlgebra(Value(a[p + 1..], b), Value(was[p + 1..], b), was[p], carry, t, b, m, c, Pow(b, i));
  }

  lemma WeightNext(b: nat, i: nat)
    ensures Pow(b, i + 1) == b * Pow(b, i)
  {
  }

  lemma CarryAlgebra(v: int, w: int, d: int, carry: int, t: int, b: int, m: int, c: int, p: int)
    requires b > 0 && v + carry * p == w * m + c && t == carry + m * d
    ensures (t % b) * p + v + (t / b) * (b * p) == (d * p + w) * m + c
  {
    assert t == b * (t / b) + t % b;
    assert t * p == (b * (t / b) + t % b) * p == (t / b) * (b * p) + (t % b) * p;
    assert t * p == carry * p + (m * d) * p;
    assert (d * p + w) * m == (m * d) * p + w * m;
  }

  /** The pass is complete once the digits above are zero and nothing is carried, or when the
      number fits into the digits there are. */
  lemma CarryDone(was: seq<nat>, a: seq<nat>, b: nat, m: nat, c: nat, carry: nat, i: nat)
    requires b > 0 && CarriedSoFar(was, a, b, m, c, carry, i) && AllZero(was[..|a| - i])
    requires (carry == 0 || i == |a|) && Value(was, b) * m + c < Pow(b, |a|)
    ensures carry == 0 && Value(a, b) == Value(was, b) * m + c && AllZero(a[..|a| - i])
  {
    hide Value, Pow;
    assert was == was[..|a| - i] + was[|a| - i..];
    assert a == a[..|a| - i] + a[|a| - i..];
    ValueZeros(was[..|a| - i], was[|a| - i..], b);
    ValueZeros(a[..|a| - i], a[|a| - i..], b);
    if carry > 0 {
      MulAtLeast(carry, Pow(b, i));
    } else {
      assert 0 * Pow(b, i) == 0;
    }
  }

  /** a := a * m + c, from the last digit on and no further than needed: at least `length` digits, and
      as long as something is carried.  Returns how many digits are in use now. */
  method MultiplyAdd(a: array<nat>, b: nat, m: nat, c: nat, length: nat) returns (i: nat)
    requires b > 0 && InBase(a[..], b) && length <= a.Length && AllZero(a[..a.Length - length])
    requires Value(a[..], b) * m + c < Pow(b, a.Length)
    modifies a
    ensures InBase(a[..], b) && Value(a[..], b) == old(Value(a[..], b)) * m + c
    ensures i <= a.Length && AllZero(a[..a.Length - i])
  {
    hide Value, Pow, CarriedSoFar, CarryIn, CarryOut, InBase, AllZero;
    ghost var was := a[..];
    var carry: nat := c;
    i := 0;
    CarryStart(was, b, m, c);
    while (carry != 0 || i < length) && i < a.Length
      invariant i <= a.Length && CarriedSoFar(was, a[..], b, m, c, carry, i)
      decreases a.Length - i
    {
      CarryStep(was, a[..], b, m, c, carry, i);
      var p := a.Length - 1 - i;
      carry := CarryIn(carry, m, a[p]);
      a[p] := carry % b;
      carry := CarryOut(carry, b);
      i := i + 1;
    }
    ZeroPrefix(was, a.Length - length, a.Length - i);
    CarryDone(was, a[..], b, m, c, carry, i);
    CarriedIn(was, a[..], b, m, c, carry, i);
    assert carry == 0;
    assert a[..][..a.Length - i] == a[..a.Length - i];
  }

  lemma ZeroPrefix(s: seq<nat>, n: nat, k: int)
    requires n <= |s| && AllZero(s[..n]) && 0 <= k <= |s|
    ensures k <= n ==> AllZero(s[..k])
  {
    if k <= n {
      assert s[..k] == s[..n][..k];
    }
  }

  lemma CarriedIn(was: seq<nat>, a: seq<nat>, b: nat, m: nat, c: nat, carry: nat, i: nat)
    requires CarriedSoFar(was, a, b, m, c, carry, i)
    ensures InBase(a, b)
  {
  }

  /** The digits in use without the leading zeros are the number's own. */
  lemma Stripped(s: seq<nat>, b: nat, it: nat)
    requires b >= 2 && InBase(s, b) && it <= |s| && AllZero(s[..it]) && (it < |s| ==> s[it] != 0)
    ensures s[it..] == DigitsOf(Value(s, b), b)
  {
    assert s == s[..it] + s[it..];
    ValueZeros(s[..it], s[it..], b);
    DigitsOfValue(s[it..], b);
  }

  lemma ZeroNext(s: seq<nat>, it: nat)
    requires it < |s| && AllZero(s[..it]) && s[it] == 0
    ensures AllZero(s[..it + 1])
  {
    assert s[..it + 1] == s[..it] + [s[it]];
  }

  /** One more digit. */
  lemma ValueGrows(s: seq<nat>, b: nat, from: nat, p: nat)
    requires from <= p < |s|
    ensures Value(s[from..p + 1], b) == Value(s[from..p], b) * b + s[p]
  {
    assert s[from..p + 1] == s[from..p] + [s[p]];
    assert (s[from..p] + [s[p]])[..p - from] == s[from..p];
  }

  lemma PrefixBound(s: seq<nat>, b: nat, from: nat, p: nat, most: nat)
    requires b > 0 && InBase(s, b) && from <= p <= |s| && p - from <= most
    ensures Value(s[from..p], b) < Pow(b, most)
  {
    ValueBound(s[from..p], b);
    PowMono(b, p - from, most);
  }

  lemma {:induction false} PowMono(b: nat, e: nat, f: nat)
    requires b > 0 && e <= f
    ensures Pow(b, e) <= Pow(b, f)
  {
    if e < f {
      PowMono(b, e, f - 1);
      PowPositive(b, f - 1);
      MulAtLeast(b, Pow(b, f - 1));
    }
  }
}
