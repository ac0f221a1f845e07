/** Difficulty targets in compact form, and the work they stand for. */
module CompactTarget {
  import opened Arithmetic
  import opened Limbs
  import opened Arith256

  // ---------------------------------------------------------------- the format

  const SIGN: nat := 0x80_0000          // 2^23, also the bound of the mantissa
  const MANTISSA_BITS: nat := 0x100_0000   // 2^24: the size byte stands above

  function Size(c: nat): nat { c / MANTISSA_BITS }

  function Word(c: nat): nat { c % SIGN }

  predicate IsNegative(c: nat) { (c / SIGN) % 2 == 1 }

  /** 256^n. */
  function Bytes(n: nat): (r: nat)
    ensures r > 0
  {
    Pow2(8 * n)
  }

  lemma BytesSum(n: nat, m: nat)
    ensures Bytes(n + m) == Bytes(n) * Bytes(m)
  {
    Pow2Sum(8 * n, 8 * m);
  }

  lemma BytesSmall()
    ensures Bytes(0) == 1 && Bytes(1) == 256 && Bytes(2) == 0x1_0000 && Bytes(3) == MANTISSA_BITS
    ensures Pow2(23) == SIGN && Pow2(15) == 0x8000
  {
    assert Pow2(8) == 256;
    Pow2Sum(8, 8);
    Pow2Sum(8, 16);
    Pow2Sum(8, 7);
    assert Pow2(7) == 128;
    Pow2Sum(8, 15);
  }

  /** The number a compact word stands for, over all integers, sign aside. */
  function Expand(c: nat): (v: nat) {
    var n := Size(c);
    if n <= 3 then ShiftDown(Word(c), 8 * (3 - n))
    else
      NatMul(Word(c), Bytes(n - 3));
      Word(c) * Bytes(n - 3)
  }

  function BitLen(v: nat): (n: nat) { if v == 0 then 0 else 1 + BitLen(v / 2) }

  lemma {:induction false} BitLenIs(v: nat)
    ensures IsBitLength(v, BitLen(v))
  {
    if v > 0 {
      BitLenIs(v / 2);
    }
  }

  /** Number of bytes of a number. */
  function ByteLen(v: nat): nat { (BitLen(v) + 7) / 8 }

  /** The three highest bytes. */
  function TopBytes(v: nat): (m: nat) {
    var n := ByteLen(v);
    if n <= 3 then
      NatMul(v, Bytes(3 - n));
      v * Bytes(3 - n)
    else ShiftDown(v, 8 * (n - 3))
  }

  /** The mantissa must stay clear of the sign bit. */
  predicate Bumped(v: nat) { TopBytes(v) >= SIGN }

  function MantissaOf(v: nat): nat { if Bumped(v) then TopBytes(v) / 256 else TopBytes(v) }

  function SizeOf(v: nat): nat { if Bumped(v) then ByteLen(v) + 1 else ByteLen(v) }

  function Compact(v: nat): nat { MantissaOf(v) + SizeOf(v) * MANTISSA_BITS }

  lemma ByteLenIs(v: nat)
    ensures v < Bytes(ByteLen(v))
    ensures v > 0 ==> ByteLen(v) > 0 && v >= Bytes(ByteLen(v) - 1)
    ensures v == 0 ==> ByteLen(v) == 0
  {
    hide Pow2;
    BitLenIs(v);
    var b := BitLen(v);
    Pow2Mono(b, 8 * ByteLen(v));
    if v > 0 {
      Pow2Mono(8 * (ByteLen(v) - 1), b - 1);
    }
  }

  /** Three bytes hold the top of the number, and the highest one is not zero. */
  lemma TopBytesBound(v: nat)
    ensures TopBytes(v) < MANTISSA_BITS
    ensures v > 0 ==> TopBytes(v) >= 0x1_0000
  {
    hide Pow2, ShiftDown, ByteLen;
    ByteLenIs(v);
    BytesSmall();
    var n := ByteLen(v);
    if n <= 3 {
      BytesSum(n, 3 - n);
      LessScaled(v, Bytes(n), Bytes(3 - n));
      if v > 0 {
        BytesSum(n - 1, 3 - n);
        NoLess(Bytes(n - 1), v, Bytes(3 - n));
      }
    } else {
      BytesSum(n - 3, 3);
      BytesSum(n - 3, 2);
      ShiftBetween(v, 8 * (n - 3), 0x1_0000, MANTISSA_BITS);
    }
  }

  lemma ShiftBetween(v: nat, s: nat, lo: nat, hi: nat)
    requires Pow2(s) * lo <= v < Pow2(s) * hi
    ensures lo <= ShiftDown(v, s) < hi
  {
    hide Pow2;
    var p := Pow2(s);
    DivNat(v, p);
    DivBelow(v, hi, p);
    var q := v / p;
    assert (lo - q) * p == lo * p - q * p;
    if q < lo {
      MulAtLeast(lo - q, p);
    }
  }

  lemma CompactParts(v: nat)
    requires v < Modulus()
    ensures MantissaOf(v) < SIGN && SizeOf(v) < 256
    ensures Size(Compact(v)) == SizeOf(v) && Word(Compact(v)) == MantissaOf(v) && !IsNegative(Compact(v))
    ensures Compact(v) < BASE
  {
    hide TopBytes, ByteLen, Pow2;
    TopBytesBound(v);
    ByteLenIs(v);
    SizeBound(v);
  }

  lemma SizeBound(v: nat)
    requires v < Modulus()
    ensures ByteLen(v) <= 32
  {
    hide Pow2;
    ByteLenIs(v);
    WeightIsPow2(WIDTH);
    if ByteLen(v) > 32 {
      Pow2Mono(256, 8 * (ByteLen(v) - 1));
    }
  }

  // ---------------------------------------------------------------- round trips

  /** What compact form keeps of a number: all but the bytes below the mantissa. */
  function Rounded(v: nat): (r: nat) {
    if SizeOf(v) <= 3 then v
    else
      DivNat(v, Bytes(SizeOf(v) - 3));
      NatMul(v / Bytes(SizeOf(v) - 3), Bytes(SizeOf(v) - 3));
      v / Bytes(SizeOf(v) - 3) * Bytes(SizeOf(v) - 3)
  }

  lemma RoundedBelow(v: nat)
    ensures Rounded(v) <= v
    ensures SizeOf(v) > 3 ==> v - Rounded(v) < Bytes(SizeOf(v) - 3)
  {
    if SizeOf(v) > 3 {
      DivNat(v, Bytes(SizeOf(v) - 3));
    }
  }

  /** The mantissa is the number without the bytes that do not fit. */
  lemma MantissaIs(v: nat)
    ensures SizeOf(v) > 3 ==> MantissaOf(v) == v / Bytes(SizeOf(v) - 3)
    ensures SizeOf(v) <= 3 ==> MantissaOf(v) == v * Bytes(3 - SizeOf(v))
  {
    hide ByteLen, Pow2;
    var n := ByteLen(v);
    BytesSmall();
    if n > 3 {
      if Bumped(v) {
        BytesSum(n - 3, 1);
        DivTwice(v, Bytes(n - 3), 256);
      }
    } else if n == 3 {
      assert TopBytes(v) == v * 1;
    } else if Bumped(v) {
      BytesSum(2 - n, 1);
      NatMul(v, Bytes(2 - n));
      assert v * (Bytes(2 - n) * 256) == (v * Bytes(2 - n)) * 256;
    }
  }

  lemma DivTwice(v: nat, p: nat, q: nat)
    requires p > 0 && q > 0
    ensures v / p / q == v / (p * q)
  {
    DivNat(v, p);
    var h, l := v / p, v % p;
    DivNat(h, q);
    var hh, hl := h / q, h % q;
    assert v == (hh * q + hl) * p + l;
    assert (hh * q + hl) * p == hh * (p * q) + hl * p;
    NatMul(hl, p);
    NatMul(q - 1 - hl, p);
    assert p * q == hl * p + p + (q - 1 - hl) * p;
    ModUnique(hl * p + l, hh, v, p * q);
  }

  /** Reading back a compact word gives the number without its lowest bytes. */
  lemma ExpandInvertsCompact(v: nat)
    requires v < Modulus()
    ensures Expand(Compact(v)) == Rounded(v) <= v
  {
    hide TopBytes, Pow2, Compact, MantissaOf, SizeOf;
    CompactParts(v);
    MantissaIs(v);
    RoundedBelow(v);
    if SizeOf(v) <= 3 {
      var p := Bytes(3 - SizeOf(v));
      NatMul(v, p);
      ModUnique(0, v, v * p, p);
    }
  }

  /** Dropping low bytes changes neither the length nor the mantissa. */
  lemma RoundedKeeps(v: nat)
    ensures ByteLen(Rounded(v)) == ByteLen(v) && SizeOf(Rounded(v)) == SizeOf(v)
            && MantissaOf(Rounded(v)) == MantissaOf(v)
  {
    hide Pow2, ByteLen, TopBytes;
    if SizeOf(v) > 3 {
      RoundedBytes(v);
      RoundedTop(v);
    }
  }

  lemma RoundedBytes(v: nat)
    requires SizeOf(v) > 3
    ensures ByteLen(Rounded(v)) == ByteLen(v)
  {
    hide Pow2, ByteLen, TopBytes;
    var n, k := ByteLen(v), SizeOf(v) - 3;
    ByteLenIs(v);
    ByteLenIs(Rounded(v));
    RoundedBelow(v);
    BytesSmall();
    assert k <= n - 2 && n >= 3;
    BytesSum(n - 1 - k, k);
    // the lowest number of that length is a multiple of the rounding unit
    MultipleBelow(v, Bytes(n - 1 - k), Bytes(k));
    LengthUnique(Rounded(v), n, ByteLen(Rounded(v)));
  }

  lemma MultipleBelow(v: nat, m: nat, p: nat)
    requires p > 0 && m * p <= v
    ensures m * p <= v / p * p
  {
    DivNat(v, p);
    var q := v / p;
    assert (m - q) * p == m * p - q * p;
    if q < m {
      MulAtLeast(m - q, p);
    } else {
      NoLess(m, q, p);
    }
  }

  lemma LengthUnique(v: nat, n: nat, m: nat)
    requires n > 0 && Bytes(n - 1) <= v < Bytes(n) && v < Bytes(m) && m > 0 && Bytes(m - 1) <= v
    ensures n == m
  {
    hide Pow2;
    if n < m {
      Pow2Mono(8 * n, 8 * (m - 1));
    } else if m < n {
      Pow2Mono(8 * m, 8 * (n - 1));
    }
  }

  lemma RoundedTop(v: nat)
    requires SizeOf(v) > 3 && ByteLen(Rounded(v)) == ByteLen(v)
    ensures Bumped(Rounded(v)) == Bumped(v) && MantissaOf(Rounded(v)) == MantissaOf(v)
  {
    hide Pow2, ByteLen;
    var n, r := ByteLen(v), Rounded(v);
    BytesSmall();
    MantissaIs(v);
    var m := MantissaOf(v);
    NatMul(m, Bytes(SizeOf(v) - 3));
    if Bumped(v) {
      BytesSum(n - 3, 1);
      assert r == (m * 256) * Bytes(n - 3);
      ModUnique(0, m * 256, r, Bytes(n - 3));
      assert TopBytes(r) == m * 256;
    } else {
      ModUnique(0, m, r, Bytes(n - 3));
      assert TopBytes(r) == m;
    }
  }

  /** Encoding again what was read back gives the same word. */
  lemma CompactIsIdempotent(v: nat)
    requires v < Modulus()
    ensures Compact(Expand(Compact(v))) == Compact(v)
  {
    hide Compact, Expand, Rounded;
    ExpandInvertsCompact(v);
    RoundedKeeps(v);
    SameParts(Rounded(v), v);
  }

  lemma SameParts(v: nat, w: nat)
    requires SizeOf(v) == SizeOf(w) && MantissaOf(v) == MantissaOf(w)
    ensures Compact(v) == Compact(w)
  {
  }

  // ---------------------------------------------------------------- overflow

  predicate Overflows(nWord: nat, nSize: nat) {
    nWord != 0 && (nSize > 34 || (nWord > 0xff && nSize > 33) || (nWord > 0xffff && nSize > 32))
  }

  /** The overflow test is exact: the number does not fit into 256 bits. */
  lemma OverflowIsExact(c: nat)
    requires Size(c) > 3
    ensures Overflows(Word(c), Size(c)) <==> Expand(c) >= Modulus()
  {
    hide Pow2, Overflows, Bytes;
    WeightIsPow2(WIDTH);
    assert Modulus() == Bytes(32) by { BytesIs(32); }
    if Size(c) > 34 {
      HugeSize(Word(c), Size(c));
    } else {
      FairSize(Word(c), Size(c));
    }
  }

  lemma BytesIs(n: nat)
    ensures Bytes(n) == Pow2(8 * n)
  {
  }

  lemma HugeSize(w: nat, n: nat)
    requires n > 34
    ensures Overflows(w, n) <==> w * Bytes(n - 3) >= Bytes(32)
  {
    hide Pow2;
    BytesSum(32, n - 35);
    MulAtLeast(Bytes(n - 35), Bytes(32));
    if w > 0 {
      MulAtLeast(w, Bytes(n - 3));
    } else {
      assert 0 * Bytes(n - 3) == 0;
    }
  }

  lemma FairSize(w: nat, n: nat)
    requires 3 < n <= 34 && w < SIGN
    ensures Overflows(w, n) <==> w * Bytes(n - 3) >= Bytes(32)
  {
    hide Pow2;
    BytesSmall();
    if n == 34 {
      BytesSum(1, 31);
      Threshold(w, 0x100, Bytes(31));
    } else if n == 33 {
      BytesSum(2, 30);
      Threshold(w, 0x1_0000, Bytes(30));
    } else {
      BytesSum(3, 29);
      LessScaled(w, MANTISSA_BITS, Bytes(29));
      Pow2Mono(8 * (n - 3), 8 * 29);
      NoLess(Bytes(n - 3), Bytes(29), w);
    }
  }

  lemma Threshold(w: nat, m: nat, p: nat)
    requires p > 0
    ensures w >= m <==> w * p >= m * p
  {
    if w >= m {
      NoLess(m, w, p);
    } else {
      LessScaled(w, m, p);
    }
  }

  // ---------------------------------------------------------------- the code

  /** arith_uint256::SetCompact; the value wraps around at 2^256 and the flags say what was lost. */
  method SetCompact(x: BaseUint, nCompact: nat) returns (fNegative: bool, fOverflow: bool)
    requires x.Valid() && nCompact < BASE
    modifies x.pn
    ensures x.Val() == Expand(nCompact) % Modulus()
    ensures fNegative <==> Expand(nCompact) != 0 && IsNegative(nCompact)
    ensures fOverflow <==> Expand(nCompact) >= Modulus()
  {
    hide Pow2, Weight, Value, Overflows;
    var nSize := nCompact / MANTISSA_BITS;
    var nWord := nCompact % SIGN;
    var small := new BaseUint(nWord);
    SetParts(nCompact);
    if nSize <= 3 {
      nWord := ShiftDown(nWord, 8 * (3 - nSize));
      small := new BaseUint(nWord);
      Assign(x, small);
    } else {
      Assign(x, small);
      x.ShiftLeft(8 * (nSize - 3));
    }
    fNegative := nWord != 0 && (nCompact / SIGN) % 2 == 1;
    fOverflow := Overflows(nWord, nSize);
  }

  method Assign(x: BaseUint, y: BaseUint)
    requires x.Valid() && y.Valid() && x.pn != y.pn
    modifies x.pn
    ensures x.pn[..] == y.pn[..]
  {
    for i := 0 to WIDTH
      invariant forall j :: 0 <= j < i ==> x.pn[j] == y.pn[j]
    {
      x.pn[i] := y.pn[i];
    }
  }

  lemma SetParts(c: nat)
    requires c < BASE
    ensures Size(c) <= 3 ==>
              && Expand(c) == ShiftDown(Word(c), 8 * (3 - Size(c))) <= Word(c) < SIGN
              && Expand(c) % Modulus() == Expand(c) < Modulus() && !Overflows(Expand(c), Size(c))
    ensures Size(c) > 3 ==>
              && Expand(c) == Word(c) * Pow2(8 * (Size(c) - 3))
              && (Overflows(Word(c), Size(c)) <==> Expand(c) >= Modulus()) && (Word(c) == 0 <==> Expand(c) == 0)
  {
    hide Pow2, Weight;
    if Size(c) <= 3 {
      DivNat(Word(c), Bytes(3 - Size(c)));
      ShrinksBy(Word(c), 8 * (3 - Size(c)));
      SignFits();
      ReducedIs(Expand(c), 0, Expand(c));
    } else {
      OverflowIsExact(c);
      if Word(c) > 0 {
        MulAtLeast(Word(c), Bytes(Size(c) - 3));
      }
    }
  }

  lemma ShrinksBy(x: nat, s: nat)
    ensures ShiftDown(x, s) <= x
  {
    var p := Pow2(s);
    DivNat(x, p);
    MulAtLeast(p, x / p);
    assert p * (x / p) == (x / p) * p;
  }

  lemma SignFits()
    ensures SIGN < Modulus()
  {
    hide Pow2;
    WeightIsPow2(WIDTH);
    Pow2Of32();
    Pow2Mono(32, 256);
  }

  /** arith_uint256::GetCompact. */
  method GetCompact(x: BaseUint, fNegative: bool) returns (nCompact: nat)
    requires x.Valid()
    ensures nCompact == Compact(x.Val()) + if fNegative && MantissaOf(x.Val()) != 0 then SIGN else 0
  {
    hide Pow2, Weight, Value, ByteLen, TopBytes, Or, BitLen;
    ghost var v := x.Val();
    var bits := x.Bits();
    var nSize := (bits + 7) / 8;
    SizeIs(v, bits);
    nCompact := Top(x, nSize);
    TopBytesBound(v);
    if (nCompact / SIGN) % 2 == 1 {
      nCompact := nCompact / 256;
      nSize := nSize + 1;
    }
    CompactParts(v);
    assert nCompact < SIGN && nSize < 256;
    PackParts(nCompact, nSize);
    nCompact := Or(nCompact, nSize * MANTISSA_BITS);
    if fNegative && nCompact % SIGN != 0 {
      nCompact := Or(nCompact, SIGN);
    }
  }

  lemma SizeIs(v: nat, bits: nat)
    requires IsBitLength(v, bits)
    ensures (bits + 7) / 8 == ByteLen(v)
  {
    BitLenIs(v);
    BitLengthUnique(v, bits, BitLen(v));
  }

  /** Mantissa, size and sign do not overlap. */
  lemma PackParts(m: nat, n: nat)
    requires m < SIGN && n < 256
    ensures Or(m, n * MANTISSA_BITS) == m + n * MANTISSA_BITS
    ensures (m + n * MANTISSA_BITS) % SIGN == m
    ensures Or(m + n * MANTISSA_BITS, SIGN) == m + n * MANTISSA_BITS + SIGN
  {
    hide Or, Pow2;
    BytesSmall();
    OrDisjoint(n, m, 24);
    OrBit(m + n * MANTISSA_BITS, 23);
  }

  /** The three highest bytes, given the number of bytes. */
  method Top(x: BaseUint, nSize: nat) returns (nCompact: nat)
    requires x.Valid() && nSize == ByteLen(x.Val())
    ensures nCompact == TopBytes(x.Val())
  {
    hide Pow2, Weight, Value, ByteLen, TopBytes;
    ghost var v := x.Val();
    if nSize <= 3 {
      LowIsAll(x.pn[..], nSize);
      TopOfShort(v);
      nCompact := ShiftUp(GetLow64(x), 8 * (3 - nSize));
    } else {
      var bn := new BaseUint.Copy(x);
      bn.ShiftRight(8 * (nSize - 3));
      TopOfLong(v);
      LowOf(bn.pn[..]);
      nCompact := GetLow64(bn) % BASE;
    }
  }

  function GetLow64(x: BaseUint): nat
    requires x.Valid()
    reads x.pn
  {
    x.pn[0] + BASE * x.pn[1]
  }

  /** A number below 2^64 is in its two lowest limbs. */
  lemma LowOf(s: seq<Limb>)
    requires |s| == WIDTH && Value(s) < BASE
    ensures s[0] + BASE * s[1] == Value(s)
  {
    ValueSplit(s, 1);
    assert s[..1] == [s[0]] && Value([s[0]]) == s[0];
    WeightNext(0);
    assert Weight(1) == BASE by { WeightNext(0); WeightZero(); }
    var rest := Value(s[1..]);
    if rest > 0 {
      MulAtLeast(rest, BASE);
    }
    ValueZero(s[1..]);
  }

  lemma LowIsAll(s: seq<Limb>, n: nat)
    requires |s| == WIDTH && n == ByteLen(Value(s)) <= 3
    ensures s[0] + BASE * s[1] == Value(s)
  {
    hide Pow2, Value, ByteLen;
    ByteLenIs(Value(s));
    Pow2Mono(8 * n, 32);
    Pow2Of32();
    LowOf(s);
  }

  lemma TopOfShort(v: nat)
    requires ByteLen(v) <= 3
    ensures ShiftUp(v, 8 * (3 - ByteLen(v))) == TopBytes(v)
  {
    hide Pow2;
    TopBytesBound(v);
  }

  lemma TopOfLong(v: nat)
    requires ByteLen(v) > 3
    ensures ShiftDown(v, 8 * (ByteLen(v) - 3)) == TopBytes(v) < BASE
  {
    hide Pow2;
    TopBytesBound(v);
  }

  // ---------------------------------------------------------------- block work

  /** A positive number. */
  predicate IsTarget(nBits: nat) { Expand(nBits) != 0 && !IsNegative(nBits) }

  /** Compact targets leave room for one more: target + 1 never wraps around. */
  lemma TargetPlusOneFits(c: nat)
    requires c < BASE && Expand(c) < Modulus()
    ensures Expand(c) + 1 < Modulus()
  {
    hide Pow2, Expand, Weight;
    SetParts(c);
    SignFits();
    if Size(c) > 3 {
      EvenNumbers(c);
    }
  }

  lemma EvenNumbers(c: nat)
    requires Size(c) > 3 && Expand(c) == Word(c) * Pow2(8 * (Size(c) - 3))
    ensures Expand(c) % 2 == 0 && Modulus() % 2 == 0
  {
    hide Weight, Expand, Pow2;
    var e := 8 * (Size(c) - 3);
    Pow2Next(e - 1);
    assert Word(c) * (2 * Pow2(e - 1)) == 2 * (Word(c) * Pow2(e - 1));
    WeightIsPow2(WIDTH);
    Pow2Next(255);
  }

  /** floor(2^256 / (t + 1)) without ever writing 2^256. */
  lemma ProofFormula(t: nat, m: nat)
    requires 0 < t && t + 1 < m
    ensures (m - 1 - t) / (t + 1) + 1 == m / (t + 1)
    ensures 1 <= m / (t + 1) < m
  {
    var d := t + 1;
    DivNat(m, d);
    var q, r := m / d, m % d;
    assert m == q * d + r;
    assert q == 0 ==> q * d == 0;
    assert (q - 1) * d == q * d - d;
    ModUnique(r, q - 1, m - d, d);
    NatMul(q, t);
    assert q * d == q + q * t;
    MulAtLeast(q, t);
  }

  /** GetBlockProof: zero for a bad target, else floor(2^256 / (target + 1)), which is positive;
      the division never fails. */
  method GetBlockProof(nBits: nat) returns (proof: BaseUint)
    requires nBits < BASE
    ensures proof.Valid()
    ensures proof.Val() == if IsTarget(nBits) && Expand(nBits) < Modulus() then Modulus() / (Expand(nBits) + 1) else 0
    ensures proof.Val() > 0 <==> IsTarget(nBits) && Expand(nBits) < Modulus()
  {
    hide Pow2, Weight, Value, Expand;
    var bnTarget := new BaseUint(0);
    var fNegative, fOverflow := SetCompact(bnTarget, nBits);
    var zero := new BaseUint(0);
    var c := bnTarget.CompareTo(zero);
    if !fOverflow {
      ReducedIs(Expand(nBits), 0, Expand(nBits));
    }
    if fNegative || fOverflow || c == 0 {
      return zero;
    }
    ghost var t := bnTarget.Val();
    TargetPlusOneFits(nBits);
    ProofFormula(t, Modulus());
    proof := bnTarget.Complement();
    bnTarget.Increment();
    ReducedIs(t + 1, 0, t + 1);
    var ok := proof.DivAssign(bnTarget);
    assert ok;
    proof.Increment();
    ReducedIs(Modulus() / (t + 1), 0, Modulus() / (t + 1));
  }
}
