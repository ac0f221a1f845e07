/** base_uint<256>: arithmetic on eight limbs, in place, against arithmetic on numbers. */
module Arith256 {
  import opened Arithmetic
  import opened Limbs

  const WIDTH: nat := 8

  /** 2^256. */
  ghost function Modulus(): nat { Weight(WIDTH) }

  lemma ModulusIs()
    ensures Modulus() == Pow2(256)
  {
    hide Weight, Pow2;
    WeightIsPow2(WIDTH);
  }

  lemma ReducedIs(x: nat, k: int, n: int)
    requires x < Modulus() && n == x + k * Modulus()
    ensures x == n % Modulus()
  {
    WeightNext(WIDTH);
    ModUnique(x, k, n, Modulus());
  }

  lemma AddStep(x: int, c: int, w: int, p: int, q: int, a: int, b: int)
    requires x + c * w == p + q && c + a + b >= 0
    ensures var n := c + a + b; x + (n % BASE) * w + (n / BASE) * (BASE * w) == (p + a * w) + (q + b * w)
  {
    var n := c + a + b;
    assert n * w == (n % BASE) * w + (n / BASE) * (BASE * w) by {
      assert n == n % BASE + BASE * (n / BASE);
      assert n * w == (n % BASE + BASE * (n / BASE)) * w;
      assert (BASE * (n / BASE)) * w == (n / BASE) * (BASE * w);
    }
    assert n * w == c * w + a * w + b * w;
  }

  class BaseUint {
    const pn: array<Limb>

    ghost predicate Valid() { pn.Length == WIDTH }

    ghost function Val(): (v: nat)
      requires Valid()
      reads pn
      ensures v < Modulus()
    {
      ValueBound(pn[..]);
      Value(pn[..])
    }

    /** A copy. */
    constructor Copy(b: BaseUint)
      requires b.Valid()
      ensures Valid() && fresh(pn) && pn[..] == b.pn[..]
    {
      pn := new Limb[WIDTH];
      new;
      for i := 0 to WIDTH
        invariant pn[..i] == b.pn[..i]
      {
        pn[i] := b.pn[i];
      }
    }

    /** From a 64-bit number. */
    constructor (b: nat)
      requires b < BASE * BASE
      ensures Valid() && fresh(pn) && Val() == b
    {
      pn := new Limb[WIDTH](i => 0);
      new;
      pn[0] := b % BASE;
      pn[1] := b / BASE;
      SmallValue(pn[..]);
      SplitWord(b);
    }

    method AddAssign(b: BaseUint)
      requires Valid() && b.Valid()
      modifies pn
      ensures Val() == (old(Val()) + old(b.Val())) % Modulus()
    {
      hide Value, Weight;
      ghost var was, bs := pn[..], b.pn[..];
      var carry := 0;
      ZeroLimbs(pn[..0], was[..0], bs[..0]);
      for i := 0 to WIDTH
        invariant carry <= 1 && (carry >= 0)
        invariant forall j :: i <= j < WIDTH ==> pn[j] == was[j] && b.pn[j] == bs[j]
        invariant Value(pn[..i]) + carry * Weight(i) == Value(was[..i]) + Value(bs[..i])
      {
        var n := carry + pn[i] + b.pn[i];
        AddStep(Value(pn[..i]), carry, Weight(i), Value(was[..i]), Value(bs[..i]), pn[i], b.pn[i]);
        NextLimbs(pn[..], was, bs, i, n % BASE);
        pn[i] := n % BASE;
        carry := n / BASE;
      }
      WholeValues(pn[..], was, bs);
      ReducedIs(Value(pn[..]), carry, Value(was) + Value(bs));
    }

    /** ++: the carry ripples through limbs that become zero. */
    method Increment()
      requires Valid()
      modifies pn
      ensures Val() == (old(Val()) + 1) % Modulus()
    {
      hide Value, Weight;
      ghost var was := pn[..];
      var i := 0;
      RippleUp(pn[..], i);
      pn[i] := (pn[i] + 1) % BASE;
      while pn[i] == 0 && i < WIDTH - 1
        invariant 0 <= i < WIDTH
        invariant Value(pn[..]) + (if pn[i] == 0 then Weight(i + 1) else 0) == Value(was) + 1
      {
        i := i + 1;
        RippleUp(pn[..], i);
        pn[i] := (pn[i] + 1) % BASE;
      }
      ValueBound(pn[..]);
      ReducedIs(Value(pn[..]), if pn[i] == 0 then 1 else 0, Value(was) + 1);
    }

    /** --: the borrow ripples through limbs that were zero. */
    method Decrement()
      requires Valid()
      modifies pn
      ensures Val() == (old(Val()) - 1) % Modulus()
    {
      hide Value, Weight;
      ghost var was := pn[..];
      var i := 0;
      RippleDown(pn[..], i);
      pn[i] := (pn[i] - 1) % BASE;
      while pn[i] == BASE - 1 && i < WIDTH - 1
        invariant 0 <= i < WIDTH
        invariant Value(pn[..]) - (if pn[i] == BASE - 1 then Weight(i + 1) else 0) == Value(was) - 1
      {
        i := i + 1;
        RippleDown(pn[..], i);
        pn[i] := (pn[i] - 1) % BASE;
      }
      ValueBound(pn[..]);
      ReducedIs(Value(pn[..]), if pn[i] == BASE - 1 then -1 else 0, Value(was) - 1);
    }

    /** ~ */
    method Complement() returns (ret: BaseUint)
      requires Valid()
      ensures ret.Valid() && fresh(ret) && fresh(ret.pn) && ret.Val() == Modulus() - 1 - Val()
    {
      ret := new BaseUint.Copy(this);
      for i := 0 to WIDTH
        invariant fresh(ret.pn) && ret.Valid()
        invariant forall j :: 0 <= j < i ==> ret.pn[j] == Not(pn[j])
      {
        ret.pn[i] := Not(pn[i]);
      }
      NotValue(pn[..], ret.pn[..]);
    }

    /** Unary minus. */
    method Negate() returns (ret: BaseUint)
      requires Valid()
      ensures ret.Valid() && fresh(ret) && fresh(ret.pn) && ret.Val() == (Modulus() - Val()) % Modulus()
    {
      hide Weight;
      ret := Complement();
      ret.Increment();
    }

    method SubAssign(b: BaseUint)
      requires Valid() && b.Valid()
      modifies pn
      ensures Val() == (old(Val()) - old(b.Val())) % Modulus()
    {
      hide Weight;
      var minus := b.Negate();
      ghost var x, y := Val(), b.Val();
      AddAssign(minus);
      SubReduced(x, y);
    }

    /** Times one limb. */
    method MulAssign32(b32: Limb)
      requires Valid()
      modifies pn
      ensures Val() == (old(Val()) * b32) % Modulus()
    {
      hide Value, Weight;
      ghost var was := pn[..];
      var carry := 0;
      ZeroLimbs(pn[..0], was[..0], was[..0]);
      for i := 0 to WIDTH
        invariant 0 <= carry < BASE
        invariant forall j :: i <= j < WIDTH ==> pn[j] == was[j]
        invariant Value(pn[..i]) + carry * Weight(i) == Value(was[..i]) * b32
      {
        var n := carry + b32 * pn[i];
        Fits(carry, 0, b32, pn[i]);
        ScaleStep(Value(pn[..i]), carry, Weight(i), Value(was[..i]), pn[i], b32);
        NextLimbs(pn[..], was, was, i, n % BASE);
        pn[i] := n % BASE;
        carry := n / BASE;
      }
      WholeValues(pn[..], was, was);
      ReducedIs(Value(pn[..]), carry, Value(was) * b32);
    }

    /** Schoolbook multiplication.  The receiver is cleared before `b` is read, so a number that is
        multiplied by itself in place becomes zero. */
    method MulAssign(b: BaseUint)
      requires Valid() && b.Valid()
      modifies pn
      ensures Val() == if b.pn == pn then 0 else (old(Val()) * old(b.Val())) % Modulus()
    {
      hide Value, Weight, ProductSoFar, RowSoFar, AllZero;
      var a := new BaseUint.Copy(this);
      Clear();
      ghost var bs, lost := b.pn[..], 0;
      ProductStart(pn[..], a.pn[..], bs);
      for j := 0 to WIDTH
        invariant fresh(a) && fresh(a.pn) && a.Valid() && a.pn[..] == old(pn[..]) && b.pn[..] == bs
        invariant b.pn == pn ==> AllZero(bs)
        invariant ProductSoFar(pn[..], lost, a.pn[..], bs, j)
      {
        ghost var start := pn[..];
        var carry := AddRow(a.pn[j], b, j);
        lost := ProductNext(start, pn[..], carry, lost, a.pn[..], bs, j);
      }
      ProductDone(pn[..], lost, a.pn[..], bs);
    }

    method Clear()
      requires Valid()
      modifies pn
      ensures AllZero(pn[..])
    {
      for i := 0 to WIDTH
        invariant forall k :: 0 <= k < i ==> pn[k] == 0
      {
        pn[i] := 0;
      }
    }

    /** Add one row of the multiplication, from limb j on; returns the carry out of the top limb. */
    method AddRow(aj: Limb, b: BaseUint, j: nat) returns (carry: nat)
      requires Valid() && b.Valid() && j < WIDTH && (b.pn == pn ==> AllZero(pn[..]))
      modifies pn
      ensures b.pn[..] == old(b.pn[..])
      ensures RowSoFar(old(pn[..]), pn[..], carry, b.pn[..], aj, WIDTH - j, j)
    {
      hide Value, Weight, RowSoFar;
      carry := 0;
      ghost var start, bs := pn[..], b.pn[..];
      RowStart(pn[..], bs, aj, j);
      var i := 0;
      while i + j < WIDTH
        invariant 0 <= i <= WIDTH - j && 0 <= carry < BASE
        invariant b.pn[..] == bs && (b.pn == pn ==> carry == 0 && AllZero(pn[..]))
        invariant RowSoFar(start, pn[..], carry, bs, aj, i, j)
      {
        var n := carry + pn[i + j] + aj * b.pn[i];
        RowStep(start, pn[..], bs, carry, aj, i, j);
        pn[i + j] := n % BASE;
        carry := n / BASE;
        i := i + 1;
      }
    }

    /** The sign of the difference. */
    method CompareTo(b: BaseUint) returns (r: int)
      requires Valid() && b.Valid()
      ensures r == if Val() < b.Val() then -1 else if Val() > b.Val() then 1 else 0
    {
      hide Value, Weight;
      var i := WIDTH - 1;
      while i >= 0
        invariant -1 <= i < WIDTH && pn[i + 1..] == b.pn[i + 1..]
      {
        if pn[i] < b.pn[i] {
          HigherLimbDecides(pn[..], b.pn[..], i);
          return -1;
        }
        if pn[i] > b.pn[i] {
          HigherLimbDecides(b.pn[..], pn[..], i);
          return 1;
        }
        assert pn[i..] == [pn[i]] + pn[i + 1..];
        assert b.pn[i..] == [b.pn[i]] + b.pn[i + 1..];
        i := i - 1;
      }
      assert pn[..] == pn[0..] == b.pn[0..] == b.pn[..];
      return 0;
    }

    /** The position of the highest one bit plus one. */
    method Bits() returns (r: nat)
      requires Valid()
      ensures r <= 32 * WIDTH && IsBitLength(Val(), r)
    {
      hide Value, Weight, IsBitLength;
      var pos := WIDTH - 1;
      while pos >= 0
        invariant -1 <= pos < WIDTH && AllZero(pn[pos + 1..])
      {
        if pn[pos] != 0 {
          var top := TopBit(pn[pos]);
          BitsOfLimbs(pn[..], pos, top);
          return 32 * pos + top;
        }
        assert pn[pos..] == [pn[pos]] + pn[pos + 1..];
        pos := pos - 1;
      }
      assert pn[0..] == pn[..];
      ZeroHasNoBits(pn[..]);
      return 0;
    }

    /** <<= */
    method ShiftLeft(shift_: nat)
      requires Valid()
      modifies pn
      ensures Val() == (old(Val()) * Pow2(shift_)) % Modulus()
    {
      hide Value, Weight, ShlSoFar, Or, Pow2;
      var a := new BaseUint.Copy(this);
      Clear();
      var k, shift := shift_ / 32, shift_ % 32;
      ghost var lost := 0;
      ShlStart(pn[..], a.pn[..], k, shift);
      for i := 0 to WIDTH
        invariant fresh(a) && fresh(a.pn) && a.Valid() && a.pn[..] == old(pn[..])
        invariant ShlSoFar(pn[..], lost, a.pn[..], i, k, shift)
      {
        lost := ShlNext(pn[..], lost, a.pn[..], i, k, shift);
        if i + k + 1 < WIDTH && shift != 0 {
          pn[i + k + 1] := Or(pn[i + k + 1], ShiftDown(a.pn[i], 32 - shift));
        }
        if i + k < WIDTH {
          pn[i + k] := Or(pn[i + k], ShiftUp(a.pn[i], shift));
        }
      }
      ShlDone(pn[..], lost, a.pn[..], k, shift, shift_);
    }

    /** >>= */
    method ShiftRight(shift_: nat)
      requires Valid()
      modifies pn
      ensures Val() == ShiftDown(old(Val()), shift_)
    {
      hide Value, Weight, ShrSoFar, Or, Pow2, ShiftUp, ShiftDown;
      var a := new BaseUint.Copy(this);
      Clear();
      var k, shift := shift_ / 32, shift_ % 32;
      ghost var rest := 0;
      ShrStart(pn[..], a.pn[..], k, shift);
      for i := 0 to WIDTH
        invariant fresh(a) && fresh(a.pn) && a.Valid() && a.pn[..] == old(pn[..])
        invariant ShrSoFar(pn[..], rest, a.pn[..], i, k, shift)
      {
        rest := ShrNext(pn[..], rest, a.pn[..], i, k, shift);
        if i - k - 1 >= 0 && shift != 0 {
          pn[i - k - 1] := Or(pn[i - k - 1], ShiftUp(a.pn[i], 32 - shift));
        }
        if i - k >= 0 {
          pn[i - k] := Or(pn[i - k], ShiftDown(a.pn[i], shift));
        }
      }
      ShrDone(pn[..], rest, a.pn[..], k, shift, shift_);
    }

    /** Long division bit by bit; false stands for the exception thrown on division by zero. */
    method DivAssign(b: BaseUint) returns (ok: bool)
      requires Valid() && b.Valid()
      modifies pn
      ensures ok <==> old(b.Val()) != 0
      ensures Val() == if ok then old(Val()) / old(b.Val()) else 0
    {
      hide Value, Weight, IsBitLength, DivSoFar, AllZero, Pow2;
      ghost var n, d := Val(), b.Val();
      var div := new BaseUint.Copy(b);
      var num := new BaseUint.Copy(this);
      Clear();
      ValueZero(pn[..]);
      var num_bits := num.Bits();
      var div_bits := div.Bits();
      DivBits(n, d, num_bits, div_bits);
      if div_bits == 0 {
        return false;
      }
      if div_bits > num_bits {
        return true;
      }
      DivStart(pn[..], n, d, num_bits, div_bits);
      div.ShiftLeft(num_bits - div_bits);
      DivideBits(num, div, num_bits - div_bits, n, d);
      return true;
    }

    /** The loop of /=: settle the quotient bits from `top` down. */
    method DivideBits(num: BaseUint, div: BaseUint, top: nat, ghost n: nat, ghost d: nat)
      requires Valid() && num.Valid() && div.Valid() && pn != num.pn && pn != div.pn && div.pn != num.pn
      requires d > 0 && DivSoFar(pn[..], num.Val(), n, d, top) && div.Val() == d * Pow2(top)
      modifies pn, num.pn, div.pn
      ensures Val() == n / d
    {
      hide Value, Weight, DivSoFar, Pow2, Or, ShiftDown;
      var shift: int := top;
      while shift >= 0
        invariant -1 <= shift <= top
        invariant DivSoFar(pn[..], num.Val(), n, d, shift)
        invariant shift >= 0 ==> div.Val() == d * Pow2(shift)
      {
        var c := num.CompareTo(div);
        DivStep(pn[..], num.Val(), n, d, shift);
        if c >= 0 {
          num.SubAssign(div);
          pn[shift / 32] := Or(pn[shift / 32], Pow2(shift % 32));
        }
        div.ShiftRight(1);
        shift := shift - 1;
      }
      DivDone(pn[..], num.Val(), n, d);
    }
  }

  // ---------------------------------------------------------------- division

  /** The lowest n bits are zero. */
  ghost predicate LowZero(s: seq<Limb>, n: nat) {
    && (forall j :: 0 <= j < |s| && j < n / 32 ==> s[j] == 0)
    && (n / 32 < |s| ==> s[n / 32] % Pow2(n % 32) == 0)
  }

  /** Quotient bits above `shift` are settled; `num` is what is left to divide. */
  ghost predicate DivSoFar(s: seq<Limb>, num: nat, n: nat, d: nat, shift: int) {
    && |s| == WIDTH && -1 <= shift < 32 * WIDTH
    && Value(s) * d + num == n && num < d * Pow2(shift + 1) && LowZero(s, shift + 1)
  }

  lemma DivBits(n: nat, d: nat, numBits: nat, divBits: nat)
    requires IsBitLength(n, numBits) && IsBitLength(d, divBits)
    ensures divBits == 0 <==> d == 0
    ensures divBits > numBits ==> 0 < d && n / d == 0
  {
    if divBits > numBits {
      Pow2Mono(numBits, divBits - 1);
      ModUnique(n, 0, n, d);
    }
  }

  lemma DivStart(s: seq<Limb>, n: nat, d: nat, numBits: nat, divBits: nat)
    requires |s| == WIDTH && AllZero(s) && n < Modulus()
    requires IsBitLength(n, numBits) && IsBitLength(d, divBits) && 0 < divBits <= numBits <= 32 * WIDTH
    ensures (d * Pow2(numBits - divBits)) % Modulus() == d * Pow2(numBits - divBits)
    ensures DivSoFar(s, n, n, d, numBits - divBits)
  {
    hide Value, Weight, Pow2;
    var shift := numBits - divBits;
    ValueZero(s);
    assert 0 * d == 0;
    Pow2Sum(divBits, shift);
    Pow2Sum(divBits - 1, shift + 1);
    LessScaled(d, Pow2(divBits), Pow2(shift));
    Pow2Mono(numBits, 32 * WIDTH);
    WeightIsPow2(WIDTH);
    NatMul(d, Pow2(shift));
    ReducedIs(d * Pow2(shift), 0, d * Pow2(shift));
    NoLess(Pow2(divBits - 1), d, Pow2(shift + 1));
    AllZeroLow(s, shift + 1);
  }

  lemma AllZeroLow(s: seq<Limb>, n: nat)
    requires AllZero(s)
    ensures LowZero(s, n)
  {
    if n / 32 < |s| {
      ModUnique(0, 0, 0, Pow2(n % 32));
    }
  }

  /** One quotient bit. */
  lemma DivStep(s: seq<Limb>, num: nat, n: nat, d: nat, shift: nat)
    requires DivSoFar(s, num, n, d, shift) && d > 0
    ensures shift < 32 * WIDTH && |s| == WIDTH
    ensures num < d * Pow2(shift) ==> DivSoFar(s, num, n, d, shift - 1)
    ensures num >= d * Pow2(shift) ==>
              && Or(s[shift / 32], Pow2(shift % 32)) < BASE
              && (num < Modulus() ==> (num - d * Pow2(shift)) % Modulus() == num - d * Pow2(shift))
              && DivSoFar(s[shift / 32 := Or(s[shift / 32], Pow2(shift % 32))], num - d * Pow2(shift), n, d, shift - 1)
    ensures shift > 0 && d * Pow2(shift) < Modulus() ==> ShiftDown(d * Pow2(shift), 1) == d * Pow2(shift - 1)
  {
    hide Value, Weight, Pow2, Or, LowZero;
    NatMul(d, Pow2(shift));
    DoublePow(d, shift);
    LowZeroLess(s, shift);
    if num >= d * Pow2(shift) {
      SetBit(s, shift);
      QuotientAlgebra(Value(s), d, num, Pow2(shift));
      if num < Modulus() {
        ReducedIs(num - d * Pow2(shift), 0, num - d * Pow2(shift));
      }
    }
  }

  lemma QuotientAlgebra(q: int, d: int, num: int, p: int)
    ensures (q + p) * d + (num - d * p) == q * d + num
  {
    assert (q + p) * d == q * d + p * d;
  }

  lemma DoublePow(d: nat, shift: nat)
    ensures d * Pow2(shift + 1) == 2 * (d * Pow2(shift))
    ensures shift > 0 ==> 0 <= d * Pow2(shift) && ShiftDown(d * Pow2(shift), 1) == d * Pow2(shift - 1)
  {
    assert d * (2 * Pow2(shift)) == 2 * (d * Pow2(shift));
    if shift > 0 {
      assert d * (2 * Pow2(shift - 1)) == 2 * (d * Pow2(shift - 1));
      NatMul(d, Pow2(shift - 1));
      assert Pow2(1) == 2;
    }
  }

  lemma LowZeroLess(s: seq<Limb>, shift: nat)
    requires LowZero(s, shift + 1)
    ensures LowZero(s, shift)
  {
    var q, r := shift / 32, shift % 32;
    if q < |s| {
      if r == 31 {
        assert (shift + 1) / 32 == q + 1;
        assert s[q] == 0;
        ModUnique(0, 0, 0, Pow2(r));
      } else {
        assert (shift + 1) / 32 == q && (shift + 1) % 32 == r + 1;
        HalfMultiple(s[q], Pow2(r));
      }
    }
  }

  lemma HalfMultiple(x: nat, p: nat)
    requires p > 0 && x % (2 * p) == 0
    ensures x % p == 0
  {
    var h := x / (2 * p);
    assert x == (2 * p) * h;
    assert (2 * p) * h == (2 * h) * p;
    ModUnique(0, 2 * h, x, p);
  }

  lemma SetBit(s: seq<Limb>, shift: nat)
    requires |s| == WIDTH && shift < 32 * WIDTH && LowZero(s, shift + 1)
    ensures Or(s[shift / 32], Pow2(shift % 32)) < BASE
    ensures Value(s[shift / 32 := Or(s[shift / 32], Pow2(shift % 32))]) == Value(s) + Pow2(shift)
    ensures LowZero(s[shift / 32 := Or(s[shift / 32], Pow2(shift % 32))], shift)
  {
    hide Value, Weight, Or, Pow2;
    var q, r := shift / 32, shift % 32;
    FreeBit(s, shift);
    var x := s[q] + Pow2(r);
    ValueUpdate(s, q, x);
    WeightIsPow2(q);
    Pow2Sum(r, 32 * q);
    LowZeroLess(s, shift);
    DivNat(s[q], Pow2(r));
    ModUnique(0, s[q] / Pow2(r) + 1, x, Pow2(r));
  }

  /** The bit to be set is not set, and neither is any below it in the same limb. */
  lemma FreeBit(s: seq<Limb>, shift: nat)
    requires |s| == WIDTH && shift < 32 * WIDTH && LowZero(s, shift + 1)
    ensures var q, r := shift / 32, shift % 32; Or(s[q], Pow2(r)) == s[q] + Pow2(r) < BASE
  {
    hide Or, Pow2;
    var q, r := shift / 32, shift % 32;
    Pow2Of32();
    if r == 31 {
      assert (shift + 1) / 32 == q + 1;
      OrZero(Pow2(r));
      Pow2Next(31);
    } else {
      assert (shift + 1) / 32 == q && (shift + 1) % 32 == r + 1;
      FreeInLimb(s[q], r);
    }
  }

  lemma FreeInLimb(x: Limb, r: nat)
    requires r < 31 && x % Pow2(r + 1) == 0
    ensures Or(x, Pow2(r)) == x + Pow2(r) < BASE
  {
    hide Or, Pow2;
    var p := Pow2(r + 1);
    DivNat(x, p);
    var h := x / p;
    Pow2Next(r);
    OrDisjoint(h, Pow2(r), r + 1);
    Pow2Of32();
    Pow2Sum(31 - r, r + 1);
    DivBelow(x, Pow2(31 - r), p);
    NoLess(h + 1, Pow2(31 - r), p);
    assert (h + 1) * p == h * p + p;
  }

  lemma DivDone(s: seq<Limb>, num: nat, n: nat, d: nat)
    requires DivSoFar(s, num, n, d, -1) && d > 0
    ensures Value(s) == n / d
  {
    hide Value;
    Pow2Zero();
    ModUnique(num, Value(s), n, d);
  }

  // ---------------------------------------------------------------- shifting right

  /** Limbs 0, ..., i - 1 were shifted down and put in place; `rest` is what was shifted out. */
  ghost predicate ShrSoFar(s: seq<Limb>, rest: nat, a: seq<Limb>, i: nat, k: nat, sh: nat) {
    && |s| == WIDTH && |a| == WIDTH && i <= WIDTH && sh < 32
    && (i <= k ==> AllZero(s))
    && (i > k ==>
          && rest < Pow2(sh) * Weight(k) && Value(a[..i]) == rest + Value(s) * (Pow2(sh) * Weight(k))
          && (forall j :: i - k <= j < WIDTH ==> s[j] == 0)
          && s[i - k - 1] < Pow2(32 - sh))
  }

  lemma ShrStart(s: seq<Limb>, a: seq<Limb>, k: nat, sh: nat)
    requires |s| == WIDTH && |a| == WIDTH && AllZero(s) && sh < 32
    ensures ShrSoFar(s, 0, a, 0, k, sh)
  {
  }

  /** What the loop body of >>= makes of the limbs. */
  function ShrStep(s: seq<Limb>, x: Limb, i: nat, k: nat, sh: nat): seq<nat>
    requires |s| == WIDTH && sh < 32 && i < WIDTH
  {
    var s0: seq<nat> := s;
    var s1 := if i - k - 1 >= 0 && sh != 0 then s0[i - k - 1 := Or(s0[i - k - 1], ShiftUp(x, 32 - sh))] else s0;
    if i - k >= 0 then s1[i - k := Or(s1[i - k], ShiftDown(x, sh))] else s1
  }

  lemma ShrNext(s: seq<Limb>, rest: nat, a: seq<Limb>, i: nat, k: nat, sh: nat) returns (rest': nat)
    requires i < WIDTH && ShrSoFar(s, rest, a, i, k, sh)
    ensures i - k - 1 >= 0 && sh != 0 ==> Or(s[i - k - 1], ShiftUp(a[i], 32 - sh)) < BASE
    ensures i - k >= 0 ==> Or(s[i - k], ShiftDown(a[i], sh)) < BASE
    ensures var r := ShrStep(s, a[i], i, k, sh);
            (forall j :: 0 <= j < |r| ==> r[j] < BASE) && ShrSoFar(r, rest', a, i + 1, k, sh)
  {
    hide Value, Weight, Or, Pow2, ShiftUp, ShiftDown;
    rest' := rest;
    if i == k {
      rest' := ShrFirst(s, rest, a, k, sh);
    } else if i > k {
      ShrLater(s, rest, a, i, k, sh);
    }
  }

  lemma ShrFirst(s: seq<Limb>, rest: nat, a: seq<Limb>, k: nat, sh: nat) returns (rest': nat)
    requires k < WIDTH && ShrSoFar(s, rest, a, k, k, sh)
    ensures Or(s[0], ShiftDown(a[k], sh)) == ShiftDown(a[k], sh) < BASE
    ensures ShrSoFar(s[0 := ShiftDown(a[k], sh)], rest', a, k + 1, k, sh)
  {
    hide Weight, Or, Pow2, Value, ShiftDown;
    var d := ShiftDown(a[k], sh);
    OrZero(d);
    FirstDigit(a[k], sh);
    ValueZero(s);
    ValueUpdate(s, 0, d);
    WeightZero();
    ValueNext(a, k);
    ValueBound(a[..k]);
    ShrAlgebra(Value(a[..k]), a[k], Pow2(sh), Weight(k), d);
    rest' := Value(a[..k]) + (a[k] % Pow2(sh)) * Weight(k);
  }

  lemma WeightZero()
    ensures Weight(0) == 1
  {
  }

  lemma FirstDigit(x: Limb, sh: nat)
    requires sh < 32
    ensures ShiftDown(x, sh) < Pow2(32 - sh) <= BASE
    ensures x == ShiftDown(x, sh) * Pow2(sh) + x % Pow2(sh) && 0 <= x % Pow2(sh) < Pow2(sh)
  {
    hide Pow2;
    Pow2Of32();
    Pow2Sum(32 - sh, sh);
    DivNat(x, Pow2(sh));
    DivBelow(x, Pow2(32 - sh), Pow2(sh));
    Pow2Small(32 - sh);
  }

  lemma ShrAlgebra(lo: nat, x: nat, p: nat, w: nat, d: nat)
    requires lo < w && p > 0 && x == d * p + x % p && x % p < p
    ensures var rest := lo + (x % p) * w; 0 <= rest < p * w && lo + x * w == rest + d * (p * w)
  {
    var m := x % p;
    NatMul(m, w);
    NatMul(p - 1 - m, w);
    assert p * w == m * w + w + (p - 1 - m) * w;
    assert x * w == (d * p + m) * w == (d * p) * w + m * w;
    assert (d * p) * w == d * (p * w);
  }

  lemma ShrLater(s: seq<Limb>, rest: nat, a: seq<Limb>, i: nat, k: nat, sh: nat)
    requires k < i < WIDTH && ShrSoFar(s, rest, a, i, k, sh)
    ensures sh != 0 ==> Or(s[i - k - 1], ShiftUp(a[i], 32 - sh)) < BASE
    ensures Or(s[i - k], ShiftDown(a[i], sh)) < BASE
    ensures var r := ShrStep(s, a[i], i, k, sh);
            (forall j :: 0 <= j < |r| ==> r[j] < BASE) && ShrSoFar(r, rest, a, i + 1, k, sh)
  {
    hide Value, Weight, Or, Pow2, ShiftUp, ShiftDown;
    var n := i - k - 1;
    var d := ShiftDown(a[i], sh);
    OrZero(d);
    ShrDigit(a[i], sh, s[n]);
    var lo := if sh == 0 then 0 else ShiftUp(a[i], 32 - sh);
    var s1: seq<Limb> := s[n := s[n] + lo];
    var s2: seq<Limb> := s1[n + 1 := d];
    assert ShrStep(s, a[i], i, k, sh) == s2;
    ShrLaterValue(s, s1, s2, rest, a, i, k, sh, lo, d);
  }

  lemma ShrLaterValue(s: seq<Limb>, s1: seq<Limb>, s2: seq<Limb>, rest: nat, a: seq<Limb>, i: nat, k: nat, sh: nat,
      lo: Limb, d: Limb)
    requires k < i < WIDTH && |s| == WIDTH && |a| == WIDTH && sh < 32 && s[i - k] == 0 && s[i - k - 1] + lo < BASE
    requires s1 == s[i - k - 1 := s[i - k - 1] + lo] && s2 == s1[i - k := d]
    requires Value(a[..i]) == rest + Value(s) * (Pow2(sh) * Weight(k))
    requires a[i] * Pow2(32 - sh) == lo + BASE * d && Pow2(32 - sh) * Pow2(sh) == BASE
    ensures Value(a[..i + 1]) == rest + Value(s2) * (Pow2(sh) * Weight(k))
  {
    hide Value, Weight, Pow2;
    var n := i - k - 1;
    ValueUpdate(s, n, s[n] + lo);
    ValueUpdate(s1, n + 1, d);
    WeightNext(n);
    ValueNext(a, i);
    WeightSum(n + 1, k);
    ShrLaterAlgebra(a[i], lo, d, Weight(n), Weight(k), Pow2(sh), Pow2(32 - sh), Value(s), Value(s2), rest,
      Value(a[..i]));
  }

  /** What a limb contributes to the two limbs below. */
  lemma ShrDigit(x: Limb, sh: nat, old_: Limb)
    requires sh < 32 && old_ < Pow2(32 - sh)
    ensures ShiftDown(x, sh) < Pow2(32 - sh) <= BASE && Pow2(32 - sh) * Pow2(sh) == BASE
    ensures sh == 0 ==> x * Pow2(32 - sh) == BASE * ShiftDown(x, sh)
    ensures sh != 0 ==> x * Pow2(32 - sh) == ShiftUp(x, 32 - sh) + BASE * ShiftDown(x, sh)
    ensures sh != 0 ==> Or(old_, ShiftUp(x, 32 - sh)) == old_ + ShiftUp(x, 32 - sh) < BASE
  {
    hide Or, Pow2;
    Pow2Of32();
    Pow2Sum(32 - sh, sh);
    DivBelow(x, Pow2(32 - sh), Pow2(sh));
    Pow2Small(sh);
    if sh == 0 {
      Pow2Zero();
      assert x / 1 == x;
    } else {
      Pow2Small(32 - sh);
      var h := Shifted(x, 32 - sh);
      OrDisjoint(h, old_, 32 - sh);
    }
  }

  lemma ShrLaterAlgebra(x: int, lo: int, d: int, wn: int, wk: int, p: int, q: int, v: int, v2: int, rest: int, av: int)
    requires q * p == BASE && x * q == lo + BASE * d
    requires v2 == v + lo * wn + d * (BASE * wn)
    requires av == rest + v * (p * wk)
    ensures av + x * ((BASE * wn) * wk) == rest + v2 * (p * wk)
  {
    assert v2 == v + (x * q) * wn by {
      assert (lo + BASE * d) * wn == lo * wn + d * (BASE * wn);
    }
    assert v2 * (p * wk) == v * (p * wk) + ((x * q) * wn) * (p * wk);
    assert ((x * q) * wn) * (p * wk) == x * (((q * p) * wn) * wk);
  }

  lemma ShrDone(s: seq<Limb>, rest: nat, a: seq<Limb>, k: nat, sh: nat, shift: nat)
    requires ShrSoFar(s, rest, a, WIDTH, k, sh) && shift == 32 * k + sh
    ensures Value(s) == ShiftDown(Value(a), shift)
  {
    hide Value, Weight, Pow2;
    assert a[..WIDTH] == a;
    ValueBound(a);
    WeightIsPow2(k);
    Pow2Sum(sh, 32 * k);
    if WIDTH <= k {
      ValueZero(s);
      WeightIsPow2(WIDTH);
      Pow2Mono(32 * WIDTH, shift);
      ModUnique(Value(a), 0, Value(a), Pow2(shift));
    } else {
      ModUnique(rest, Value(s), Value(a), Pow2(shift));
    }
  }

  // ---------------------------------------------------------------- shifting left

  function High(x: Limb, s: nat): nat
    requires s < 32
  {
    if s == 0 then 0 else ShiftDown(x, 32 - s)
  }

  lemma ShiftParts(x: Limb, p: nat, q: nat)
    requires q > 0 && p > 0 && q * p == BASE
    ensures var lo, hi := x % q, x / q;
            && 0 <= lo && 0 <= hi < p && lo * p + p <= BASE
            && lo * p == x * p % BASE && x * p == lo * p + BASE * hi
  {
    DivNat(x, q);
    var lo, hi := x % q, x / q;
    NatMul(q - 1 - lo, p);
    NatMul(lo, p);
    assert q * p == lo * p + p + (q - 1 - lo) * p;
    assert x * p == (hi * q + lo) * p == (hi * q) * p + lo * p;
    assert (hi * q) * p == hi * (q * p);
    ModUnique(lo * p, hi, x * p, BASE);
    DivBelow(x, p, q);
  }

  /** A shifted limb falls into a low and a high part, which leave room for each other. */
  lemma Shifted(x: Limb, s: nat) returns (h: nat)
    requires s < 32
    ensures x * Pow2(s) == ShiftUp(x, s) + BASE * High(x, s)
    ensures High(x, s) < Pow2(s)
    ensures ShiftUp(x, s) == h * Pow2(s) && h * Pow2(s) + Pow2(s) <= BASE
  {
    hide Pow2;
    Pow2Of32();
    Pow2Sum(32 - s, s);
    ShiftParts(x, Pow2(s), Pow2(32 - s));
    h := x % Pow2(32 - s);
    if s == 0 {
      ModUnique(x, 0, x, BASE);
    }
  }

  /** Limbs 0, ..., i - 1 were shifted and put in place; `lost` times the modulus fell off the top. */
  ghost predicate ShlSoFar(s: seq<Limb>, lost: nat, a: seq<Limb>, i: nat, k: nat, sh: nat) {
    && |s| == WIDTH && |a| == WIDTH && i <= WIDTH && sh < 32
    && Value(s) + lost * Modulus() == Value(a[..i]) * Pow2(sh) * Weight(k)
    && (forall j :: i + k < j < WIDTH ==> s[j] == 0)
    && (i + k < WIDTH ==> s[i + k] < Pow2(sh))
  }

  lemma ShlStart(s: seq<Limb>, a: seq<Limb>, k: nat, sh: nat)
    requires |s| == WIDTH && |a| == WIDTH && AllZero(s) && sh < 32
    ensures ShlSoFar(s, 0, a, 0, k, sh)
  {
    ValueZero(s);
    assert Value(a[..0]) == 0;
    assert 0 * Pow2(sh) * Weight(k) == 0;
  }

  /** A number is added in place `at`, or falls off the top. */
  lemma Deposit(s: seq<Limb>, lost: nat, x: nat, at: nat) returns (lost': nat)
    requires |s| == WIDTH && (at < WIDTH ==> s[at] + x < BASE)
    ensures at < WIDTH ==>
              lost' == lost
              && Value(s[at := s[at] + x]) + lost' * Modulus() == Value(s) + lost * Modulus() + x * Weight(at)
    ensures at >= WIDTH ==> Value(s) + lost' * Modulus() == Value(s) + lost * Modulus() + x * Weight(at)
  {
    hide Value, Weight;
    if at < WIDTH {
      lost' := lost;
      ValueUpdate(s, at, s[at] + x);
    } else {
      WeightSum(at - WIDTH, WIDTH);
      NatMul(x, Weight(at - WIDTH));
      lost' := lost + x * Weight(at - WIDTH);
      DropAlgebra(lost, x, Weight(at - WIDTH), Modulus());
    }
  }

  lemma DropAlgebra(l: int, x: int, w: int, m: int)
    ensures (l + x * w) * m == l * m + x * (w * m)
  {
    assert (l + x * w) * m == l * m + (x * w) * m;
    assert (x * w) * m == x * (w * m);
  }

  /** What the loop body of <<= makes of the limbs. */
  function ShlStep(s: seq<Limb>, x: Limb, i: nat, k: nat, sh: nat): seq<nat>
    requires |s| == WIDTH && sh < 32
  {
    var s0: seq<nat> := s;
    var s1 := if i + k + 1 < WIDTH && sh != 0 then s0[i + k + 1 := Or(s0[i + k + 1], ShiftDown(x, 32 - sh))] else s0;
    if i + k < WIDTH then s1[i + k := Or(s1[i + k], ShiftUp(x, sh))] else s1
  }

  lemma ShlNext(s: seq<Limb>, lost: nat, a: seq<Limb>, i: nat, k: nat, sh: nat) returns (lost': nat)
    requires i < WIDTH && ShlSoFar(s, lost, a, i, k, sh)
    ensures i + k + 1 < WIDTH && sh != 0 ==> Or(s[i + k + 1], ShiftDown(a[i], 32 - sh)) < BASE
    ensures i + k < WIDTH ==> Or(s[i + k], ShiftUp(a[i], sh)) < BASE
    ensures var r := ShlStep(s, a[i], i, k, sh);
            (forall j :: 0 <= j < |r| ==> r[j] < BASE) && ShlSoFar(r, lost', a, i + 1, k, sh)
  {
    hide Value, Weight, Or, Pow2, ShiftUp, ShiftDown;
    var h := Shifted(a[i], sh);
    var lo, hi := ShiftUp(a[i], sh), High(a[i], sh);
    Pow2Small(sh);
    if i + k < WIDTH {
      OrDisjoint(h, s[i + k], sh);
      assert Or(s[i + k], lo) == s[i + k] + lo;
    }
    if i + k + 1 < WIDTH {
      OrZero(hi);
    }
    var lost1 := Deposit(s, lost, lo, i + k);
    var s1 := if i + k < WIDTH then s[i + k := s[i + k] + lo] else s;
    lost' := Deposit(s1, lost1, hi, i + k + 1);
    var s2 := if i + k + 1 < WIDTH then s1[i + k + 1 := s1[i + k + 1] + hi] else s1;
    assert ShlStep(s, a[i], i, k, sh) == s2;
    ShlAlgebra(a, i, k, sh, lo, hi);
  }

  lemma Pow2Small(s: nat)
    requires s <= 32
    ensures 1 <= Pow2(s) <= BASE
  {
    Pow2Of32();
    Pow2Mono(s, 32);
    Pow2Mono(0, s);
  }

  lemma ShlAlgebra(a: seq<Limb>, i: nat, k: nat, sh: nat, lo: nat, hi: nat)
    requires i < |a| && a[i] * Pow2(sh) == lo + BASE * hi
    ensures Value(a[..i + 1]) * Pow2(sh) * Weight(k)
            == Value(a[..i]) * Pow2(sh) * Weight(k) + lo * Weight(i + k) + hi * Weight(i + k + 1)
  {
    hide Value, Weight, Pow2;
    ValueNext(a, i);
    WeightSum(i, k);
    WeightNext(i + k);
    var v, p, wi, wk := Value(a[..i]), Pow2(sh), Weight(i), Weight(k);
    assert (v + a[i] * wi) * p * wk == v * p * wk + (a[i] * p) * (wi * wk);
    assert (lo + BASE * hi) * (wi * wk) == lo * (wi * wk) + hi * (BASE * (wi * wk));
  }

  lemma ShlDone(s: seq<Limb>, lost: nat, a: seq<Limb>, k: nat, sh: nat, shift: nat)
    requires ShlSoFar(s, lost, a, WIDTH, k, sh) && shift == 32 * k + sh
    ensures Value(s) == (Value(a) * Pow2(shift)) % Modulus()
  {
    hide Value, Weight, Pow2;
    assert a[..WIDTH] == a;
    WeightIsPow2(k);
    Pow2Sum(sh, 32 * k);
    Assoc(Value(a), Pow2(sh), Weight(k));
    ValueBound(s);
    ReducedIs(Value(s), lost, Value(a) * Pow2(shift));
  }

  /** Bit length of a limb that is not zero. */
  method TopBit(x: Limb) returns (r: nat)
    requires x != 0
    ensures 1 <= r <= 32 && IsBitLength(x, r)
  {
    var bits := 31;
    Pow2Of32();
    while bits > 0
      invariant 0 <= bits <= 31 && x < Pow2(bits + 1)
    {
      BitTest(x, bits);
      if (x / Pow2(bits)) % 2 == 1 {
        return bits + 1;
      }
      bits := bits - 1;
    }
    assert Pow2(1) == 2 && Pow2(0) == 1;
    return 1;
  }

  lemma BitTest(x: nat, e: nat)
    requires x < Pow2(e + 1)
    ensures (x / Pow2(e)) % 2 == 1 <==> x >= Pow2(e)
  {
    var p := Pow2(e);
    if x < p {
      ModUnique(x, 0, x, p);
    } else {
      ModUnique(x - p, 1, x, p);
    }
  }

  lemma BitsOfLimbs(s: seq<Limb>, pos: nat, top: nat)
    requires |s| == WIDTH && pos < WIDTH && AllZero(s[pos + 1..]) && 1 <= top && IsBitLength(s[pos], top)
    ensures IsBitLength(Value(s), 32 * pos + top)
  {
    hide Value, Weight;
    ValueSplit(s, pos + 1);
    ValueZero(s[pos + 1..]);
    assert Weight(pos + 1) * 0 == 0;
    ValueNext(s, pos);
    ValueBound(s[..pos]);
    WeightIsPow2(pos);
    Pow2Sum(32 * pos, top);
    Pow2Sum(32 * pos, top - 1);
    Scaled(Value(s[..pos]), s[pos], Weight(pos), Pow2(top - 1), Pow2(top));
  }

  lemma Scaled(lo: nat, x: nat, w: nat, p: nat, q: nat)
    requires lo < w && p <= x < q
    ensures w * p <= lo + x * w < w * q
  {
    NatMul(x - p, w);
    NatMul(q - 1 - x, w);
    assert x * w == w * p + (x - p) * w;
    assert w * q == x * w + w + (q - 1 - x) * w;
  }

  lemma ZeroHasNoBits(s: seq<Limb>)
    requires AllZero(s)
    ensures IsBitLength(Value(s), 0)
  {
    ValueZero(s);
  }

  lemma HigherLimbDecides(s: seq<Limb>, r: seq<Limb>, i: nat)
    requires |s| == |r| && i < |s| && s[i] < r[i] && s[i + 1..] == r[i + 1..]
    ensures Value(s) < Value(r)
  {
    hide Value, Weight;
    ValueSplit(s, i + 1);
    ValueSplit(r, i + 1);
    ValueNext(s, i);
    ValueNext(r, i);
    ValueBound(s[..i]);
    MulAtLeast(r[i] - s[i], Weight(i));
    assert r[i] * Weight(i) == s[i] * Weight(i) + (r[i] - s[i]) * Weight(i);
  }

  /** The 64-bit intermediate result never wraps around. */
  lemma Fits(c: nat, p: Limb, x: Limb, y: Limb)
    requires c < BASE
    ensures 0 <= x * y && c + p + x * y < BASE * BASE
  {
    NatMul(x, y);
    NatMul(BASE - 1 - x, y);
    assert (BASE - 1) * y == x * y + (BASE - 1 - x) * y;
  }

  lemma ScaleStep(x: int, c: int, w: int, p: int, a: int, b: int)
    requires x + c * w == p * b && c + b * a >= 0
    ensures var n := c + b * a; x + (n % BASE) * w + (n / BASE) * (BASE * w) == (p + a * w) * b
  {
    var n := c + b * a;
    assert n * w == (n % BASE) * w + (n / BASE) * (BASE * w) by {
      assert n == n % BASE + BASE * (n / BASE);
      assert n * w == (n % BASE + BASE * (n / BASE)) * w;
      assert (BASE * (n / BASE)) * w == (n / BASE) * (BASE * w);
    }
    assert n * w == c * w + (b * a) * w;
    assert (p + a * w) * b == p * b + (a * w) * b;
    assert (a * w) * b == (b * a) * w;
  }

  /** `i` limbs of row j have been added to `start`, giving `s` and a carry. */
  ghost predicate RowSoFar(start: seq<Limb>, s: seq<Limb>, carry: nat, bs: seq<Limb>, aj: Limb, i: nat, j: nat)
    requires |bs| == WIDTH && i + j <= WIDTH
  {
    Value(s) + carry * Weight(i + j) == Value(start) + aj * Value(bs[..i]) * Weight(j)
  }

  lemma RowStart(s: seq<Limb>, bs: seq<Limb>, aj: Limb, j: nat)
    requires |bs| == WIDTH && j <= WIDTH
    ensures RowSoFar(s, s, 0, bs, aj, 0, j)
  {
    assert Value(bs[..0]) == 0;
    assert aj * 0 * Weight(j) == 0;
  }

  lemma RowStep(start: seq<Limb>, s: seq<Limb>, bs: seq<Limb>, c: nat, aj: Limb, i: nat, j: nat)
    requires |s| == WIDTH && |bs| == WIDTH && i + j < WIDTH && c < BASE
    requires RowSoFar(start, s, c, bs, aj, i, j)
    ensures var n := c + s[i + j] + aj * bs[i];
            0 <= n < BASE * BASE && 0 <= n / BASE < BASE
              && RowSoFar(start, s[i + j := n % BASE], n / BASE, bs, aj, i + 1, j)
  {
    hide Value, Weight;
    Fits(c, s[i + j], aj, bs[i]);
    var n := c + s[i + j] + aj * bs[i];
    ValueUpdate(s, i + j, n % BASE);
    ValueNext(bs, i);
    WeightNext(i + j);
    WeightSum(i, j);
    RowAlgebra(Value(s), c, n, s[i + j], aj, bs[i], Value(bs[..i]), Weight(i), Weight(j), Value(start));
  }

  lemma RowAlgebra(v: int, c: int, n: int, old_: int, a: int, b: int, bv: int, wi: int, wj: int, start: int)
    requires v + c * (wi * wj) == start + a * bv * wj && n == c + old_ + a * b
    ensures v + (n % BASE - old_) * (wi * wj) + (n / BASE) * (BASE * (wi * wj)) == start + a * (bv + b * wi) * wj
  {
    var w := wi * wj;
    assert n * w == (n % BASE) * w + (n / BASE) * (BASE * w) by {
      assert n == n % BASE + BASE * (n / BASE);
      assert n * w == (n % BASE + BASE * (n / BASE)) * w;
      assert (BASE * (n / BASE)) * w == (n / BASE) * (BASE * w);
    }
    assert n * w == c * w + old_ * w + (a * b) * w;
    assert (n % BASE - old_) * w == (n % BASE) * w - old_ * w;
    assert a * (bv + b * wi) * wj == a * bv * wj + (a * b) * w;
  }

  /** The first j rows have been added up; `lost` times the modulus fell off the top. */
  ghost predicate ProductSoFar(s: seq<Limb>, lost: nat, a: seq<Limb>, bs: seq<Limb>, j: nat)
    requires |a| == WIDTH && j <= WIDTH
  {
    Value(s) + lost * Modulus() == Value(a[..j]) * Value(bs)
  }

  lemma ProductStart(s: seq<Limb>, a: seq<Limb>, bs: seq<Limb>)
    requires AllZero(s) && |a| == WIDTH
    ensures ProductSoFar(s, 0, a, bs, 0)
  {
    ValueZero(s);
    assert Value(a[..0]) == 0;
    assert 0 * Value(bs) == 0;
  }

  lemma ProductNext(start: seq<Limb>, s: seq<Limb>, carry: nat, lost: nat, a: seq<Limb>, bs: seq<Limb>, j: nat)
    returns (lost': nat)
    requires |a| == WIDTH && |bs| == WIDTH && j < WIDTH
    requires ProductSoFar(start, lost, a, bs, j) && RowSoFar(start, s, carry, bs, a[j], WIDTH - j, j)
    ensures ProductSoFar(s, lost', a, bs, j + 1)
  {
    hide Value, Weight;
    ValueNext(a, j);
    ValueSplit(bs, WIDTH - j);
    WeightSum(WIDTH - j, j);
    NatMul(a[j], Value(bs[WIDTH - j..]));
    lost' := lost + carry + a[j] * Value(bs[WIDTH - j..]);
    DoneAlgebra(Value(s), carry, Value(start), lost, Value(a[..j]), a[j], Value(bs[..WIDTH - j]),
      Value(bs[WIDTH - j..]), Weight(WIDTH - j), Weight(j), Value(bs));
  }

  lemma ProductDone(s: seq<Limb>, lost: nat, a: seq<Limb>, bs: seq<Limb>)
    requires |s| == WIDTH && |a| == WIDTH && ProductSoFar(s, lost, a, bs, WIDTH)
    ensures Value(s) == (Value(a) * Value(bs)) % Modulus()
    ensures AllZero(bs) ==> Value(s) == 0
  {
    hide Value, Weight, AllZero;
    assert a[..WIDTH] == a;
    ValueBound(s);
    ReducedIs(Value(s), lost, Value(a) * Value(bs));
    ValueZero(bs);
    if AllZero(bs) {
      assert Value(a) * 0 == 0;
      ReducedIs(0, 0, 0);
    }
  }

  lemma DoneAlgebra(v: int, c: int, start: int, lost: int, av: int, aj: int, lo: int, hi: int, wk: int, wj: int, b: int)
    requires b == lo + wk * hi
    requires start + lost * (wk * wj) == av * b
    requires v + c * (wk * wj) == start + aj * lo * wj
    ensures v + (lost + c + aj * hi) * (wk * wj) == (av + aj * wj) * b
  {
    var m := wk * wj;
    assert (lost + c + aj * hi) * m == lost * m + c * m + (aj * hi) * m;
    assert (av + aj * wj) * b == av * b + (aj * wj) * b;
    assert (aj * wj) * b == (aj * wj) * lo + (aj * wj) * (wk * hi);
    assert (aj * wj) * lo == aj * lo * wj;
    assert (aj * wj) * (wk * hi) == (aj * hi) * m;
  }

  lemma RippleUp(s: seq<Limb>, i: nat)
    requires i < |s|
    ensures Value(s[i := (s[i] + 1) % BASE]) + (if (s[i] + 1) % BASE == 0 then Weight(i + 1) else 0)
            == Value(s) + Weight(i)
    ensures i == 0 ==> Weight(i) == 1
  {
    ValueUpdate(s, i, (s[i] + 1) % BASE);
    WeightNext(i);
    if s[i] == BASE - 1 {
      assert (0 - s[i]) * Weight(i) == Weight(i) - BASE * Weight(i);
    } else {
      assert (s[i] + 1 - s[i]) * Weight(i) == Weight(i);
    }
  }

  lemma RippleDown(s: seq<Limb>, i: nat)
    requires i < |s|
    ensures Value(s[i := (s[i] - 1) % BASE]) - (if (s[i] - 1) % BASE == BASE - 1 then Weight(i + 1) else 0)
            == Value(s) - Weight(i)
    ensures i == 0 ==> Weight(i) == 1
  {
    ValueUpdate(s, i, (s[i] - 1) % BASE);
    WeightNext(i);
    if s[i] == 0 {
      assert (BASE - 1 - s[i]) * Weight(i) == BASE * Weight(i) - Weight(i);
    } else {
      assert (s[i] - 1 - s[i]) * Weight(i) == 0 - Weight(i) as int;
    }
  }

  lemma {:induction false} NotValue(s: seq<Limb>, r: seq<Limb>)
    requires |r| == |s| && forall i :: 0 <= i < |s| ==> r[i] == Not(s[i])
    ensures Value(r) == Weight(|s|) - 1 - Value(s)
  {
    if s != [] {
      NotValue(s[1..], r[1..]);
      WeightNext(|s| - 1);
    }
  }

  lemma SubReduced(x: int, y: int)
    requires 0 <= y < Modulus()
    ensures (x + (Modulus() - y) % Modulus()) % Modulus() == (x - y) % Modulus()
  {
    hide Weight;
    WeightNext(WIDTH);
    var m: int := Modulus();
    var z := (m - y) % m;
    var r := (x + z) % m;
    var k1, k2 := (m - y) / m, (x + z) / m;
    assert m - y == m * k1 + z && x + z == m * k2 + r;
    assert x - y == r + (k1 + k2 - 1) * m;
    ReducedIs(r, k1 + k2 - 1, x - y);
  }

  lemma SmallValue(s: seq<Limb>)
    requires |s| == WIDTH && forall i :: 2 <= i < WIDTH ==> s[i] == 0
    ensures Value(s) == s[0] + BASE * s[1]
  {
    ValueZero(s[2..]);
    assert s[1..][1..] == s[2..];
  }

  lemma ZeroLimbs(a: seq<Limb>, b: seq<Limb>, c: seq<Limb>)
    requires a == [] && b == [] && c == []
    ensures Value(a) == 0 && Value(b) == 0 && Value(c) == 0
  {
  }

  /** The values of the first i + 1 limbs, when limb i of the first number becomes x. */
  lemma NextLimbs(a: seq<Limb>, b: seq<Limb>, c: seq<Limb>, i: nat, x: Limb)
    requires i < |a| == |b| == |c|
    ensures Value(a[i := x][..i + 1]) == Value(a[..i]) + x * Weight(i)
    ensures Value(b[..i + 1]) == Value(b[..i]) + b[i] * Weight(i)
    ensures Value(c[..i + 1]) == Value(c[..i]) + c[i] * Weight(i)
    ensures Weight(i + 1) == BASE * Weight(i)
  {
    assert a[i := x][..i] == a[..i];
    ValueNext(a[i := x], i);
    ValueNext(b, i);
    ValueNext(c, i);
    WeightNext(i);
  }

  lemma WholeValues(a: seq<Limb>, b: seq<Limb>, c: seq<Limb>)
    requires |a| == |b| == |c| == WIDTH
    ensures a[..WIDTH] == a && b[..WIDTH] == b && c[..WIDTH] == c && Value(a) < Modulus()
  {
    ValueBound(a);
  }

  /** Three times itself in place is not nine. */
  method SquareInPlace() returns (x: BaseUint)
    ensures fresh(x) && x.Valid() && x.Val() == 0
  {
    x := new BaseUint(3);
    x.MulAssign(x);
  }
}
