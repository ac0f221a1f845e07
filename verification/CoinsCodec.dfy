/** How the unspent outputs of a transaction are written to disk: compressed amounts, the code word
    with the first three flags, and the bit mask of the other outputs. */
module CoinsCodec {
  import opened Arithmetic
  import opened Utxo
  import opened ByteBits

  // ---------------------------------------------------------------- amounts

  const U32: nat := 0x1_0000_0000
  const U64: nat := 0x1_0000_0000_0000_0000

  /** One more than the largest signed numbers. */
  const I32: nat := 0x8000_0000
  const I64: nat := 0x8000_0000_0000_0000

  /** The number of trailing zeros taken off, at most 9 - e more. */
  function Stripped(n: nat, e: nat): (r: (nat, nat))
    requires n > 0 && e <= 9
    ensures r.0 > 0 && e <= r.1 <= 9 && (r.1 < 9 ==> r.0 % 10 != 0)
    decreases 9 - e
  {
    if n % 10 == 0 && e < 9 then Stripped(n / 10, e + 1) else (n, e)
  }

  /** The code an amount is stored as, over all numbers. */
  function Compressed(n: nat): nat {
    if n == 0 then 0
    else
      var (m, e) := Stripped(n, 0);
      if e < 9 then 1 + (m / 10 * 9 + m % 10 - 1) * 10 + e else 1 + (m - 1) * 10 + 9
  }

  function TimesTen(n: nat, e: nat): nat { if e == 0 then n else 10 * TimesTen(n, e - 1) }

  /** The digits of the amount with a given code, without its trailing zeros. */
  function Mantissa(x: nat): nat
    requires x > 0
  {
    var e, y := (x - 1) % 10, (x - 1) / 10;
    if e < 9 then y / 9 * 10 + y % 9 + 1 else y + 1
  }

  function Decompressed(x: nat): nat { if x == 0 then 0 else TimesTen(Mantissa(x), (x - 1) % 10) }

  lemma {:induction false} StrippedIs(n: nat, e: nat)
    requires n > 0 && e <= 9
    ensures var (m, f) := Stripped(n, e); n == TimesTen(m, f - e)
    decreases 9 - e
  {
    if n % 10 == 0 && e < 9 {
      StrippedIs(n / 10, e + 1);
    }
  }

  /** Every amount is read back from its code ... */
  lemma DecompressInverts(n: nat)
    ensures Decompressed(Compressed(n)) == n
  {
    hide TimesTen, Stripped, Mantissa;
    if n > 0 {
      StrippedIs(n, 0);
      var (m, e) := Stripped(n, 0);
      CodeDigits(m, e);
    }
  }

  lemma CodeDigits(m: nat, e: nat)
    requires m > 0 && e <= 9 && (e < 9 ==> m % 10 != 0)
    ensures var x := if e < 9 then 1 + (m / 10 * 9 + m % 10 - 1) * 10 + e else 1 + (m - 1) * 10 + 9;
            x > 0 && (x - 1) % 10 == e && Mantissa(x) == m
  {
    if e < 9 {
      var y := m / 10 * 9 + m % 10 - 1;
      ModUnique(e, y, y * 10 + e, 10);
      ModUnique(m % 10 - 1, m / 10, y, 9);
    } else {
      ModUnique(9, m - 1, (m - 1) * 10 + 9, 10);
    }
  }

  lemma {:induction false} TimesTenStrips(m: nat, k: nat, e: nat)
    requires m > 0 && k + e <= 9 && (k + e < 9 ==> m % 10 != 0)
    ensures TimesTen(m, k) > 0 && Stripped(TimesTen(m, k), e) == (m, k + e)
    decreases k
  {
    hide TimesTen;
    if k > 0 {
      TimesTenStrips(m, k - 1, e + 1);
      TimesTenNext(m, k - 1);
      var t := TimesTen(m, k - 1);
      assert (10 * t) % 10 == 0 && (10 * t) / 10 == t;
    } else {
      NoTens(m);
    }
  }

  /** ... and every number is the code of an amount. */
  lemma CompressInverts(x: nat)
    ensures Compressed(Decompressed(x)) == x
  {
    hide TimesTen, Stripped;
    if x > 0 {
      MantissaDigits(x);
      TimesTenStrips(Mantissa(x), (x - 1) % 10, 0);
    }
  }

  lemma {:induction false} TimesTenIs(n: nat, e: nat)
    ensures TimesTen(n, e) == n * Pow(10, e)
  {
    if e > 0 {
      TimesTenIs(n, e - 1);
      assert n * (10 * Pow(10, e - 1)) == 10 * (n * Pow(10, e - 1));
    }
  }

  /** The format of a code: the exponent of ten, at most nine, the last digit unless that is zero, and the rest. */
  lemma CompressedIs(n: nat, d: nat, e: nat)
    requires 1 <= d <= 9 && e < 9
    ensures Compressed((10 * n + d) * Pow(10, e)) == 1 + 10 * (9 * n + d - 1) + e
    ensures n > 0 ==> Compressed(n * Pow(10, 9)) == 1 + 10 * (n - 1) + 9
  {
    hide TimesTen, Stripped, Mantissa, Compressed, Pow;
    var m := 10 * n + d;
    CodeDigits(m, e);
    TimesTenIs(m, e);
    CompressInverts(1 + 10 * (9 * n + d - 1) + e);
    if n > 0 {
      CodeDigits(n, 9);
      TimesTenIs(n, 9);
      CompressInverts(1 + 10 * (n - 1) + 9);
    }
  }

  lemma MantissaDigits(x: nat)
    requires x > 0
    ensures Mantissa(x) > 0 && ((x - 1) % 10 < 9 ==> Mantissa(x) % 10 != 0)
    ensures (x - 1) % 10 < 9 ==> 1 + (Mantissa(x) / 10 * 9 + Mantissa(x) % 10 - 1) * 10 + (x - 1) % 10 == x
  {
    var y := (x - 1) / 10;
    assert (y / 9 * 10 + (y % 9 + 1)) % 10 == y % 9 + 1;
  }

  lemma MantissaCode(x: nat)
    requires x > 0 && (x - 1) % 10 < 9
    ensures 1 <= Mantissa(x) % 10 <= 9 && 9 * Mantissa(x) + Mantissa(x) % 10 - 9 + (x - 1) % 10 == x
  {
    hide Mantissa;
    MantissaDigits(x);
  }

  lemma {:induction false} TimesTenGrows(m: nat, e: nat)
    ensures TimesTen(m, e) >= m
  {
    if e > 0 {
      TimesTenGrows(m, e - 1);
    }
  }

  /** Compressed amounts fit into 64 bits when nine times the amount does. */
  lemma CompressedBound(n: nat)
    ensures Compressed(n) <= 9 * n
  {
    hide Stripped, TimesTen;
    if n > 0 {
      StrippedIs(n, 0);
      var (m, e) := Stripped(n, 0);
      TimesTenGrows(m, e);
      if e > 0 {
        TenAtLeast(m, e);
      }
    }
  }

  lemma TenAtLeast(m: nat, e: nat)
    requires e > 0
    ensures TimesTen(m, e) >= 10 * m
  {
    TimesTenGrows(m, e - 1);
  }

  /** CompressAmount on 64-bit words. */
  method CompressAmount(n_: nat) returns (r: nat)
    requires n_ < U64
    ensures r == Compressed(n_) % U64
  {
    if n_ == 0 {
      return 0;
    }
    var n, e := n_, 0;
    while n % 10 == 0 && e < 9
      invariant n > 0 && 0 <= e <= 9 && Stripped(n, e) == Stripped(n_, 0)
      decreases 9 - e
    {
      n := n / 10;
      e := e + 1;
    }
    if e < 9 {
      var d := n % 10;
      assert 1 <= d <= 9;
      n := n / 10;
      r := (1 + (n * 9 + d - 1) * 10 + e) % U64;
    } else {
      r := (1 + (n - 1) * 10 + 9) % U64;
    }
  }

  method DecompressAmount(x_: nat) returns (r: nat)
    requires x_ < U64
    ensures r == Decompressed(x_) % U64
  {
    hide TimesTen;
    if x_ == 0 {
      return 0;
    }
    var x := x_ - 1;
    var e := x % 10;
    x := x / 10;
    var n: nat;
    if e < 9 {
      var d := x % 9 + 1;
      x := x / 9;
      n := x * 10 + d;
    } else {
      n := x + 1;
    }
    n := n % U64;
    ghost var k := 0;
    NoTens(Mantissa(x_));
    while e > 0
      invariant 0 <= e && k >= 0 && k + e == (x_ - 1) % 10 && n == TimesTen(Mantissa(x_), k) % U64
    {
      TenMore(Mantissa(x_), k);
      n := n * 10 % U64;
      e := e - 1;
      k := k + 1;
    }
    r := n;
  }

  lemma TimesTenNext(m: nat, k: nat)
    ensures TimesTen(m, k + 1) == 10 * TimesTen(m, k)
  {
  }

  lemma NoTens(m: nat)
    ensures TimesTen(m, 0) == m
  {
  }

  lemma TenMore(m: nat, k: nat)
    ensures TimesTen(m, k) % U64 * 10 % U64 == TimesTen(m, k + 1) % U64
  {
    hide TimesTen;
    TimesTenNext(m, k);
    var v := TimesTen(m, k);
    var a := v % U64 * 10;
    ModUnique(a % U64, 10 * (v / U64) + a / U64, 10 * v, U64);
  }

  // An amount whose code wraps t times is read back as another one. Where the code of n, less t * 2^64, is
  // that of m followed by e zeros, m * 10^e == n + s * 2^64 would give
  // 9 * (10^e - 1) * m == (9 * s + t) * 2^64 - delta for a small delta; e depends on t alone.

  lemma Apart2(m: nat, s: nat, t: nat, delta: int)
    requires -10 <= delta <= 6 && (t == 3 || t == 8) && 9 * m <= U64 + 9
    ensures 891 * m != (9 * s + t) * U64 - delta
  {
    var n := 9 * s + t;
    var k := 229 * m - 4741082371357449293 * n;
    Residue2(n, s, t, delta, k);
    assert 891 * m == n * U64 - delta ==> n <= 99 && n == 229 * delta + 891 * k;
  }

  lemma Residue2(n: nat, s: nat, t: nat, delta: int, k: int)
    requires n == 9 * s + t && (t == 3 || t == 8) && -10 <= delta <= 6
    ensures n <= 99 ==> n != 229 * delta + 891 * k
  {
  }

  lemma Apart4(m: nat, s: nat, t: nat, delta: int)
    requires -12 <= delta <= 4 && (t == 1 || t == 6) && 9 * m <= U64 + 9
    ensures 89991 * m != (9 * s + t) * U64 - delta
  {
    var n := 9 * s + t;
    var k := 12703 * m - 2603915835676150217 * n;
    Residue4(n, s, t, delta, k);
    assert 89991 * m == n * U64 - delta ==> n <= 9999 && n == 12703 * delta + 89991 * k;
  }

  lemma Residue4(n: nat, s: nat, t: nat, delta: int, k: int)
    requires n == 9 * s + t && (t == 1 || t == 6) && -12 <= delta <= 4
    ensures n <= 9999 ==> n != 12703 * delta + 89991 * k
  {
  }

  lemma Apart6(m: nat, s: nat, delta: int)
    requires -14 <= delta <= 2 && 9 * m <= U64 + 9
    ensures 8999991 * m != (9 * s + 4) * U64 - delta
  {
    var n := 9 * s + 4;
    var k := 2909344 * m - 5963108650928922233 * n;
    Residue6(n, s, delta, k);
    assert 8999991 * m == n * U64 - delta ==> n <= 999999 && n == 2909344 * delta + 8999991 * k;
  }

  lemma Residue6(n: nat, s: nat, delta: int, k: int)
    requires n == 9 * s + 4 && -14 <= delta <= 2
    ensures n <= 999999 ==> n != 2909344 * delta + 8999991 * k
  {
  }

  lemma Apart8(m: nat, s: nat, t: nat, delta: int)
    requires -16 <= delta <= 0 && (t == 2 || t == 7) && 9 * m <= U64 + 9
    ensures 899999991 * m != (9 * s + t) * U64 - delta
  {
    var n := 9 * s + t;
    var k := 98372866 * m - 2016287890051016505 * n;
    Residue8(n, s, t, delta, k);
    assert 899999991 * m == n * U64 - delta ==> n <= 99999999 && n == 98372866 * delta + 899999991 * k;
  }

  lemma Residue8(n: nat, s: nat, t: nat, delta: int, k: int)
    requires n == 9 * s + t && (t == 2 || t == 7) && -16 <= delta <= 0
    ensures n <= 99999999 ==> n != 98372866 * delta + 899999991 * k
  {
  }

  /** Only amounts that do not end in zero have codes that large. */
  lemma LargeCode(n: nat)
    requires n < U64 <= Compressed(n)
    ensures n % 10 != 0 && Compressed(n) == 9 * n + n % 10 - 9 && Compressed(n) % 10 == 1
  {
    hide Stripped, TimesTen;
    StrippedIs(n, 0);
    var (m, e) := Stripped(n, 0);
    if e > 0 {
      TenAtLeast(m, e);
      SmallCode(m, e);
    } else {
      NoTens(m);
      DigitsCode(m);
    }
  }

  lemma SmallCode(m: nat, e: nat)
    requires m > 0 && 0 < e <= 9 && 10 * m < U64
    ensures (if e < 9 then 1 + (m / 10 * 9 + m % 10 - 1) * 10 + e else 1 + (m - 1) * 10 + 9) < U64
  {
    assert m == m / 10 * 10 + m % 10;
  }

  lemma DigitsCode(m: nat)
    requires m % 10 != 0
    ensures 1 + (m / 10 * 9 + m % 10 - 1) * 10 + 0 == 9 * m + m % 10 - 9 && (9 * m + m % 10 - 9) % 10 == 1
  {
    var q, d := m / 10, m % 10;
    assert m == q * 10 + d;
    assert 9 * m + d - 9 == 10 * (9 * q + d - 1) + 1;
  }

  lemma Tens(m: nat)
    ensures TimesTen(m, 2) == 100 * m && TimesTen(m, 4) == 10000 * m
    ensures TimesTen(m, 6) == 1000000 * m && TimesTen(m, 8) == 100000000 * m
  {
    hide TimesTen;
    NoTens(m);
    TimesTenNext(m, 0);
    TimesTenNext(m, 1);
    TimesTenNext(m, 2);
    TimesTenNext(m, 3);
    TimesTenNext(m, 4);
    TimesTenNext(m, 5);
    TimesTenNext(m, 6);
    TimesTenNext(m, 7);
  }

  /** The number of zeros that the wrapped code stands for. */
  lemma WrappedZeros(c: nat, t: nat, x: nat)
    requires c % 10 == 1 && 1 <= t <= 8 && c == t * U64 + x && x > 0
    ensures (x - 1) % 10 == 4 * t % 10
  {
    if t == 1 || t == 6 {
      assert (x - 1) % 10 == 4;
    } else if t == 2 || t == 7 {
      assert (x - 1) % 10 == 8;
    } else if t == 3 || t == 8 {
      assert (x - 1) % 10 == 2;
    } else if t == 4 {
      assert (x - 1) % 10 == 6;
    } else {
      assert (x - 1) % 10 == 0;
    }
  }

  lemma Combined(n: nat, m: nat, v: nat, t: nat, s: nat, delta: int)
    requires 9 * m == 9 * n + delta - t * U64
    ensures v == n + s * U64 ==> 9 * v - 9 * m == (9 * s + t) * U64 - delta
  {
  }

  lemma NotTheSame(n: nat, d: nat, m: nat, dm: nat, t: nat, e: nat, s: nat)
    requires 1 <= d <= 9 && 1 <= dm <= 9 && 1 <= t <= 8 && e == 4 * t % 10
    requires 9 * m + dm - 9 + e == 9 * n + d - 9 - t * U64 < U64
    ensures TimesTen(m, e) != n + s * U64
  {
    hide TimesTen;
    Tens(m);
    NoTens(m);
    var delta := d - dm - e;
    Combined(n, m, TimesTen(m, e), t, s, delta);
    if t == 1 || t == 6 {
      assert e == 4;
      Apart4(m, s, t, delta);
    } else if t == 2 || t == 7 {
      assert e == 8;
      Apart8(m, s, t, delta);
    } else if t == 3 || t == 8 {
      assert e == 2;
      Apart2(m, s, t, delta);
    } else if t == 4 {
      assert e == 6;
      Apart6(m, s, delta);
    } else {
      assert e == 0;
    }
  }

  lemma WrappedDiffers(n: nat, c: nat, t: nat, x: nat)
    requires n < U64 && n % 10 != 0 && c == 9 * n + n % 10 - 9 && c % 10 == 1 && c == t * U64 + x
    requires t > 0 && 0 < x < U64
    ensures Decompressed(x) % U64 != n
  {
    hide TimesTen, Mantissa;
    WrappedZeros(c, t, x);
    MantissaCode(x);
    var m, e := Mantissa(x), (x - 1) % 10;
    var v := TimesTen(m, e);
    DivNat(v, U64);
    NotTheSame(n, n % 10, m, m % 10, t, e, v / U64);
  }

  /** A code that does not fit is read back as another amount. */
  lemma WrappedIsAnother(n: nat)
    requires n < U64 <= Compressed(n)
    ensures Decompressed(Compressed(n) % U64) % U64 != n
  {
    hide Compressed, TimesTen;
    LargeCode(n);
    var c := Compressed(n);
    var t, x := c / U64, c % U64;
    DivNat(c, U64);
    if x > 0 {
      WrappedDiffers(n, c, t, x);
    }
  }

  /** The 64-bit code is lossless exactly where it does not wrap, as for amounts up to one ninth of the range. */
  method AmountRoundTrip(n: nat) returns (r: nat)
    requires n < U64
    ensures r == n <==> Compressed(n) < U64
    ensures 9 * n < U64 ==> r == n
  {
    hide Compressed, Decompressed;
    CompressedBound(n);
    DecompressInverts(n);
    if Compressed(n) >= U64 {
      WrappedIsAnother(n);
    }
    var x := CompressAmount(n);
    r := DecompressAmount(x);
  }

  /** An amount that a transaction may have, and that is read back as 10000. */
  lemma AmountIsLost()
    ensures var n := 2049638230412172403; n < I64 && Compressed(n) % U64 == 5 && Decompressed(5) == 10000
  {
    assert Stripped(2049638230412172403, 0) == (2049638230412172403, 0);
    Tens(1);
  }

  // ---------------------------------------------------------------- the mask

  predicate Avail(vout: seq<TxOut>, i: nat) { i < |vout| && vout[i] != Null }

  /** What bit k of mask byte b stands for. */
  predicate InByte(vout: seq<TxOut>, b: nat, k: nat) { Avail(vout, 3 + 8 * b + k) }

  /** The first n bits of mask byte b: one for each of the outputs from 3 + 8 * b on. */
  function MaskBits(vout: seq<TxOut>, b: nat, n: nat): bv8
    requires n <= 8
  {
    if n == 0 then 0 else MaskBits(vout, b, n - 1) | (ToBit(Avail(vout, 3 + 8 * b + n - 1)) << (n - 1))
  }

  function MaskByte(vout: seq<TxOut>, b: nat): bv8 { MaskBits(vout, b, 8) }

  lemma {:induction false} MaskBitsIs(vout: seq<TxOut>, b: nat, n: nat, k: nat)
    requires n <= 8 && k < 8
    ensures BitOf(MaskBits(vout, b, n), k) <==> k < n && InByte(vout, b, k)
  {
    hide BitOf, ToBit;
    if n == 0 {
      ZeroByte(0);
    } else {
      MaskBitsIs(vout, b, n - 1, k);
      SetBit(MaskBits(vout, b, n - 1), Avail(vout, 3 + 8 * b + n - 1), n - 1, k);
    }
  }

  function MaskBytes(vout: seq<TxOut>, n: nat): (m: seq<bv8>)
    ensures |m| == n && forall b :: 0 <= b < n ==> m[b] == MaskByte(vout, b)
  {
    if n == 0 then [] else MaskBytes(vout, n - 1) + [MaskByte(vout, n - 1)]
  }

  function NonZero(m: seq<bv8>): (n: nat)
    ensures n <= |m|
  {
    if m == [] then 0 else NonZero(m[..|m| - 1]) + if m[|m| - 1] != 0 then 1 else 0
  }

  /** One past the last of the first n mask bytes that is not zero. */
  function LastUsed(vout: seq<TxOut>, n: nat): (k: nat)
    ensures k <= n && (k > 0 ==> MaskByte(vout, k - 1) != 0) && forall b :: k <= b < n ==> MaskByte(vout, b) == 0
  {
    if n == 0 then 0 else if MaskByte(vout, n - 1) != 0 then n else LastUsed(vout, n - 1)
  }

  /** Number of mask bytes there could be. */
  function MaskRange(vout: seq<TxOut>): nat { if |vout| <= 3 then 0 else (|vout| - 3 + 7) / 8 }

  function MaskSize(vout: seq<TxOut>): nat { LastUsed(vout, MaskRange(vout)) }

  function Mask(vout: seq<TxOut>): seq<bv8> { MaskBytes(vout, MaskSize(vout)) }

  lemma NonZeroNext(m: seq<bv8>, w: bv8)
    ensures NonZero(m + [w]) == NonZero(m) + if w != 0 then 1 else 0
  {
    assert (m + [w])[..|m|] == m;
  }

  /** Mask bytes that are zero do not count. */
  lemma {:induction false} NonZeroUpTo(vout: seq<TxOut>, k: nat, n: nat)
    requires k <= n && forall b :: k <= b < n ==> MaskByte(vout, b) == 0
    ensures NonZero(MaskBytes(vout, n)) == NonZero(MaskBytes(vout, k))
  {
    hide MaskByte, NonZero;
    if k < n {
      NonZeroUpTo(vout, k, n - 1);
      NonZeroNext(MaskBytes(vout, n - 1), MaskByte(vout, n - 1));
    }
  }

  /** CalcMaskSize: the mask ends with its last byte that is not zero. */
  method CalcMaskSize(vout: seq<TxOut>) returns (nBytes: nat, nNonzeroBytes: nat)
    ensures nBytes == MaskSize(vout) && nNonzeroBytes == NonZero(Mask(vout))
  {
    hide MaskByte, MaskBytes, NonZero;
    nBytes, nNonzeroBytes := 0, 0;
    var b := 0;
    EmptyMask(vout);
    while 3 + b * 8 < |vout|
      invariant 0 <= b <= MaskRange(vout) && nBytes == LastUsed(vout, b) && nNonzeroBytes == NonZero(MaskBytes(vout, b))
      decreases |vout| - 8 * b
    {
      var fZero := ZeroBlock(vout, b);
      if !fZero {
        nBytes := b + 1;
        nNonzeroBytes := nNonzeroBytes + 1;
      }
      NextMask(vout, b);
      b := b + 1;
    }
    NonZeroUpTo(vout, MaskSize(vout), MaskRange(vout));
  }

  /** Whether none of the outputs of a mask byte is unspent. */
  method ZeroBlock(vout: seq<TxOut>, b: nat) returns (fZero: bool)
    ensures fZero <==> MaskByte(vout, b) == 0
  {
    hide BitOf, MaskBits;
    fZero := true;
    var i := 0;
    while i < 8 && 3 + b * 8 + i < |vout|
      invariant 0 <= i <= 8 && (fZero <==> forall k :: 0 <= k < i ==> !InByte(vout, b, k))
    {
      assert InByte(vout, b, i) <==> vout[3 + b * 8 + i] != Null;
      if vout[3 + b * 8 + i] != Null {
        fZero := false;
      }
      i := i + 1;
    }
    ByteIs(vout, b);
    assert forall k :: i <= k < 8 ==> !InByte(vout, b, k);
  }

  lemma ByteIs(vout: seq<TxOut>, b: nat)
    ensures forall k :: 0 <= k < 8 ==> (BitOf(MaskByte(vout, b), k) <==> InByte(vout, b, k))
    ensures MaskByte(vout, b) == 0 <==> forall k :: 0 <= k < 8 ==> !InByte(vout, b, k)
  {
    hide BitOf, MaskBits;
    forall k | 0 <= k < 8
      ensures BitOf(MaskByte(vout, b), k) <==> InByte(vout, b, k)
    {
      MaskBitsIs(vout, b, 8, k);
    }
    ZeroByte(MaskByte(vout, b));
  }

  lemma EmptyMask(vout: seq<TxOut>)
    ensures LastUsed(vout, 0) == 0 && NonZero(MaskBytes(vout, 0)) == 0
  {
  }

  lemma NextMask(vout: seq<TxOut>, b: nat)
    ensures NonZero(MaskBytes(vout, b + 1)) == NonZero(MaskBytes(vout, b)) + if MaskByte(vout, b) != 0 then 1 else 0
  {
    hide MaskByte;
    assert MaskBytes(vout, b + 1)[..b] == MaskBytes(vout, b);
  }

  // ---------------------------------------------------------------- writing

  /** What goes to disk: numbers of any length, bytes and scripts. VARINT and the script compression are
      taken as they are; readers keep as many bits of a number as they have room for. */
  datatype Token = VarInt(n: nat) | Raw(b: bv8) | Script(s: seq<nat>)

  function Flag(b: bool, w: nat): nat { if b then w else 0 }

  predicate AnyOfFirst(vout: seq<TxOut>) { Avail(vout, 0) || Avail(vout, 1) || Avail(vout, 2) }

  function CodeOf(c: Coins): int {
    32 * (NonZero(Mask(c.vout)) - (if AnyOfFirst(c.vout) then 0 else 1))
    + Flag(c.coinBase, 1) + Flag(Avail(c.vout, 0), 2) + Flag(Avail(c.vout, 1), 4) + Flag(Avail(c.vout, 2), 8)
      + Flag(c.coinStake, 16)
  }

  function RawTokens(m: seq<bv8>): (t: seq<Token>)
    ensures |t| == |m| && forall i :: 0 <= i < |m| ==> t[i] == Raw(m[i])
  {
    seq(|m|, i requires 0 <= i < |m| => Raw(m[i]))
  }

  /** The outputs that are left, from output i on. */
  function OutTokens(vout: seq<TxOut>, i: nat): seq<Token>
    requires i <= |vout|
    decreases |vout| - i
  {
    if i == |vout| then []
    else if vout[i] == Null || vout[i].value < 0 then OutTokens(vout, i + 1)
    else [VarInt(Compressed(vout[i].value) % U64), Script(vout[i].script)] + OutTokens(vout, i + 1)
  }

  /** What VARINT writes of a signed number: of a negative one, the lowest seven bits. */
  function Wired(n: int): nat { if n < 0 then n % 128 else n }

  lemma WiredIs(n: int)
    ensures n >= 0 ==> Wired(n) == n
    ensures n < 0 ==> Wired(n) < 128 && (n - Wired(n)) % 128 == 0
  {
  }

  const MAX_BLOCK_BASE_SIZE: nat := 1000000

  /** The entries that Serialize is meant for: not pruned, with no more outputs than a block has bytes, and
      fields within their types. */
  predicate Storable(c: Coins) {
    && !IsPruned(c) && Trimmed(c.vout) && |c.vout| <= MAX_BLOCK_BASE_SIZE
    && 0 <= c.height < I32 && -0x8000_0000 <= c.version < I32 && Amounts(c.vout)
  }

  /** No amount is negative, and each fits into its type. */
  predicate Amounts(vout: seq<TxOut>) { forall i :: 0 <= i < |vout| && vout[i].Out? ==> 0 <= vout[i].value < I64 }

  /** An entry with an unspent output has a flag or a mask byte, so the code is not negative. */
  lemma CodeIsNat(c: Coins)
    requires !IsPruned(c)
    ensures AnyOfFirst(c.vout) || NonZero(Mask(c.vout)) > 0
    ensures CodeOf(c) >= 0
  {
    hide MaskByte, NonZero, MaskBytes;
    if !AnyOfFirst(c.vout) {
      var i :| 0 <= i < |c.vout| && c.vout[i] != Null;
      var b := (i - 3) / 8;
      ByteIs(c.vout, b);
      assert InByte(c.vout, b, (i - 3) % 8);
      assert b < MaskSize(c.vout);
      SomeNonZero(c.vout, MaskSize(c.vout));
    }
  }

  lemma SomeNonZero(vout: seq<TxOut>, k: nat)
    requires k > 0 && MaskByte(vout, k - 1) != 0
    ensures NonZero(MaskBytes(vout, k)) > 0
  {
    NextMask(vout, k - 1);
  }

  function Written(c: Coins): seq<Token>
    requires Storable(c)
  {
    CodeIsNat(c);
    [VarInt(Wired(c.version)), VarInt(CodeOf(c))] + RawTokens(Mask(c.vout)) + OutTokens(c.vout, 0) + [VarInt(c.height)]
  }

  // ---------------------------------------------------------------- reading

  datatype Result<T> = Failure | Success(value: T, rest: seq<Token>)

  function Bits(w: bv8): (r: seq<bool>)
    ensures |r| == 8 && forall k :: 0 <= k < 8 ==> r[k] == BitOf(w, k)
  {
    seq(8, k requires 0 <= k < 8 => BitOf(w, k))
  }

  /** Read mask bytes until the announced number of non-zero ones has been seen. */
  function ReadMask(t: seq<Token>, nMaskCode: nat): Result<seq<bool>>
    decreases |t|
  {
    if nMaskCode == 0 then Success([], t)
    else if t == [] || !t[0].Raw? then Failure
    else match ReadMask(t[1..], if t[0].b != 0 then nMaskCode - 1 else nMaskCode)
      case Failure => Failure
      case Success(more, rest) => Success(Bits(t[0].b) + more, rest)
  }

  /** The signed number with the same lowest 32 or 64 bits. */
  function Signed(n: nat, half: nat): int
    requires half > 0
  {
    if n % (2 * half) < half then n % (2 * half) else n % (2 * half) - 2 * half
  }

  /** It is within range and differs from the number by a multiple of the range. */
  lemma SignedIs(n: nat, half: nat)
    requires half > 0
    ensures -1 * half <= Signed(n, half) < half && (n - Signed(n, half)) % (2 * half) == 0
  {
    var m := 2 * half;
    DivNat(n, m);
    var q := n / m;
    if n % m < half {
      ModUnique(0, q, q * m, m);
    } else {
      assert n - Signed(n, half) == (q + 1) * m;
      ModUnique(0, q + 1, (q + 1) * m, m);
    }
  }

  /** An output is null when its amount is -1. */
  function GetOut(n: nat, script: seq<nat>): TxOut {
    var value := Signed(Decompressed(n % U64) % U64, I64);
    if value == -1 then Null else Out(value, script)
  }

  /** Read an output for every bit that is set. */
  function ReadOuts(t: seq<Token>, avail: seq<bool>): Result<seq<TxOut>>
    decreases |avail|
  {
    if avail == [] then Success([], t)
    else if !avail[0] then
      match ReadOuts(t, avail[1..])
      case Failure => Failure
      case Success(more, rest) => Success([Null] + more, rest)
    else if |t| < 2 || !t[0].VarInt? || !t[1].Script? then Failure
    else
      match ReadOuts(t[2..], avail[1..])
      case Failure => Failure
      case Success(more, rest) => Success([GetOut(t[0].n, t[1].s)] + more, rest)
  }

  predicate HasFlag(code: nat, w: nat)
    requires w > 0
  {
    (code / w) % 2 == 1
  }

  function ReadCoins(t: seq<Token>): Result<Coins> {
    if |t| < 2 || !t[0].VarInt? || !t[1].VarInt? then Failure
    else
      var code := t[1].n % U32;
      var first := [HasFlag(code, 2), HasFlag(code, 4), HasFlag(code, 8)];
      match ReadMask(t[2..], code / 32 + if code / 2 % 8 != 0 then 0 else 1)
      case Failure => Failure
      case Success(more, afterMask) =>
        match ReadOuts(afterMask, first + more)
        case Failure => Failure
        case Success(vout, afterOuts) =>
          if afterOuts == [] || !afterOuts[0].VarInt? then Failure
          else
            var height, version := Signed(afterOuts[0].n, I32), Signed(t[0].n, I32);
            Success(Cleanup(Coins(HasFlag(code, 1), HasFlag(code, 16), vout, height, version)), afterOuts[1..])
  }

  function AllBits(m: seq<bv8>): (r: seq<bool>)
    ensures |r| == 8 * |m|
  {
    if m == [] then [] else Bits(m[0]) + AllBits(m[1..])
  }

  lemma {:induction false} NonZeroFront(m: seq<bv8>)
    requires m != []
    ensures NonZero(m) == (if m[0] != 0 then 1 else 0) + NonZero(m[1..])
  {
    if |m| == 1 {
      assert m[..0] == [] && m[1..] == [];
    } else {
      NonZeroFront(m[..|m| - 1]);
      assert m[..|m| - 1][1..] == m[1..][..|m| - 2];
    }
  }

  lemma NonZeroLast(m: seq<bv8>)
    requires m != [] && m[|m| - 1] != 0
    ensures NonZero(m) > 0
  {
  }

  /** Exactly the mask bytes are read, because the last one is not zero. */
  lemma {:induction false} ReadMaskInverts(m: seq<bv8>, rest: seq<Token>)
    requires m != [] ==> m[|m| - 1] != 0
    ensures ReadMask(RawTokens(m) + rest, NonZero(m)) == Success(AllBits(m), rest)
  {
    hide NonZero, Bits;
    var t := RawTokens(m) + rest;
    if m == [] {
      assert t == rest;
      NonZeroNone();
    } else {
      NonZeroFront(m);
      NonZeroLast(m);
      assert t[1..] == RawTokens(m[1..]) + rest;
      ReadMaskInverts(m[1..], rest);
    }
  }

  lemma NonZeroNone()
    ensures NonZero([]) == 0
  {
  }

  /** The bits say which outputs there are. */
  predicate Describes(avail: seq<bool>, vout: seq<TxOut>, i: nat) {
    i <= |vout| && |vout| - i <= |avail| && forall k :: 0 <= k < |avail| ==> avail[k] == Avail(vout, i + k)
  }

  function Padded(vout: seq<TxOut>, n: nat): (r: seq<TxOut>)
    ensures |r| == |vout| + n
  {
    vout + seq(n, _ => Null)
  }

  /** What comes back of an output. */
  function Stored(o: TxOut): TxOut {
    if o == Null || o.value < 0 then o else GetOut(Compressed(o.value) % U64, o.script)
  }

  function StoredAll(vout: seq<TxOut>): (r: seq<TxOut>)
    ensures |r| == |vout| && forall i :: 0 <= i < |r| ==> r[i] == Stored(vout[i])
  {
    seq(|vout|, i requires 0 <= i < |vout| => Stored(vout[i]))
  }

  lemma {:induction false} ReadOutsInverts(vout: seq<TxOut>, i: nat, avail: seq<bool>, rest: seq<Token>)
    requires Describes(avail, vout, i) && Amounts(vout)
    ensures ReadOuts(OutTokens(vout, i) + rest, avail)
            == Success(Padded(StoredAll(vout[i..]), |avail| - (|vout| - i)), rest)
    decreases |avail|
  {
    hide Compressed, GetOut, Stored;
    if avail == [] {
      assert OutTokens(vout, i) + rest == rest;
    } else if i == |vout| {
      NoMoreOuts(avail, rest);
      assert OutTokens(vout, i) + rest == rest;
      assert vout[i..] == [];
    } else {
      assert Describes(avail[1..], vout, i + 1) by {
        forall k | 0 <= k < |avail[1..]|
          ensures avail[1..][k] == Avail(vout, i + 1 + k)
        {
          assert avail[1..][k] == avail[k + 1];
        }
      }
      ReadOutsInverts(vout, i + 1, avail[1..], rest);
      NextOut(vout, i, avail, rest);
    }
  }

  lemma NextOut(vout: seq<TxOut>, i: nat, avail: seq<bool>, rest: seq<Token>)
    requires i < |vout| && |vout| - i <= |avail| && avail[0] == Avail(vout, i) && (vout[i].Out? ==> vout[i].value >= 0)
    requires ReadOuts(OutTokens(vout, i + 1) + rest, avail[1..])
             == Success(Padded(StoredAll(vout[i + 1..]), |avail| - (|vout| - i)), rest)
    ensures ReadOuts(OutTokens(vout, i) + rest, avail)
            == Success(Padded(StoredAll(vout[i..]), |avail| - (|vout| - i)), rest)
  {
    hide Compressed, GetOut, Padded;
    PaddedFront(vout, i, |avail| - (|vout| - i));
    var t, more := OutTokens(vout, i) + rest, OutTokens(vout, i + 1) + rest;
    if vout[i] != Null {
      assert t == [VarInt(Compressed(vout[i].value) % U64), Script(vout[i].script)] + more;
      assert t[2..] == more;
    } else {
      assert t == more;
    }
  }

  lemma PaddedFront(vout: seq<TxOut>, i: nat, n: nat)
    requires i < |vout|
    ensures [Stored(vout[i])] + Padded(StoredAll(vout[i + 1..]), n) == Padded(StoredAll(vout[i..]), n)
  {
    hide Stored;
    assert StoredAll(vout[i..]) == [Stored(vout[i])] + StoredAll(vout[i + 1..]);
  }

  lemma {:induction false} NoMoreOuts(avail: seq<bool>, rest: seq<Token>)
    requires forall k :: 0 <= k < |avail| ==> !avail[k]
    ensures ReadOuts(rest, avail) == Success(Padded([], |avail|), rest)
  {
    if avail != [] {
      NoMoreOuts(avail[1..], rest);
      assert [Null] + Padded([], |avail| - 1) == Padded([], |avail|);
    } else {
      assert Padded([], 0) == [];
    }
  }

  // ---------------------------------------------------------------- the round trip

  lemma {:induction false} AllBitsAt(m: seq<bv8>, b: nat, k: nat)
    requires b < |m| && k < 8
    ensures AllBits(m)[8 * b + k] == BitOf(m[b], k)
  {
    hide BitOf;
    if b > 0 {
      AllBitsAt(m[1..], b - 1, k);
    }
  }

  /** Flags and mask bits together describe all outputs. */
  lemma MaskDescribes(vout: seq<TxOut>)
    requires Trimmed(vout)
    ensures Describes([Avail(vout, 0), Avail(vout, 1), Avail(vout, 2)] + AllBits(Mask(vout)), vout, 0)
  {
    hide MaskByte, BitOf, MaskBytes;
    MaskReaches(vout);
    var m := Mask(vout);
    var avail := [Avail(vout, 0), Avail(vout, 1), Avail(vout, 2)] + AllBits(m);
    forall k | 3 <= k < |avail|
      ensures avail[k] == Avail(vout, k)
    {
      var b, j := (k - 3) / 8, (k - 3) % 8;
      AllBitsAt(m, b, j);
      MaskAt(vout, MaskSize(vout), b);
      ByteIs(vout, b);
      assert InByte(vout, b, j) == Avail(vout, k);
    }
  }

  lemma MaskAt(vout: seq<TxOut>, n: nat, b: nat)
    requires b < n
    ensures MaskBytes(vout, n)[b] == MaskByte(vout, b)
  {
  }

  /** In a trimmed entry the mask reaches to the last output. */
  lemma MaskReaches(vout: seq<TxOut>)
    requires Trimmed(vout)
    ensures |vout| <= 3 + 8 * MaskSize(vout)
  {
    hide MaskByte;
    if |vout| > 3 {
      var b := (|vout| - 4) / 8;
      ByteIs(vout, b);
      assert InByte(vout, b, (|vout| - 4) % 8);
    }
  }

  lemma {:induction false} TrimPadded(vout: seq<TxOut>, n: nat)
    ensures Trim(Padded(vout, n)) == Trim(vout)
  {
    if n == 0 {
      assert Padded(vout, 0) == vout;
    } else {
      assert Padded(vout, n)[..|vout| + n - 1] == Padded(vout, n - 1);
      TrimPadded(vout, n - 1);
    }
  }

  function Low(f0: bool, f1: bool, f2: bool, f3: bool, f4: bool): (low: nat)
    ensures low < 32
  {
    Flag(f0, 1) + Flag(f1, 2) + Flag(f2, 4) + Flag(f3, 8) + Flag(f4, 16)
  }

  lemma LowFlags(f0: bool, f1: bool, f2: bool, f3: bool, f4: bool)
    ensures var low := Low(f0, f1, f2, f3, f4);
            && HasFlag(low, 1) == f0 && HasFlag(low, 2) == f1 && HasFlag(low, 4) == f2 && HasFlag(low, 8) == f3
            && HasFlag(low, 16) == f4
            && (low / 2 % 8 != 0 <==> f1 || f2 || f3)
  {
  }

  lemma HighKeepsLow(h: nat, low: nat)
    requires low < 32
    ensures HasFlag(32 * h + low, 1) == HasFlag(low, 1) && HasFlag(32 * h + low, 2) == HasFlag(low, 2)
            && HasFlag(32 * h + low, 4) == HasFlag(low, 4)
    ensures HasFlag(32 * h + low, 8) == HasFlag(low, 8) && HasFlag(32 * h + low, 16) == HasFlag(low, 16)
    ensures (32 * h + low) / 2 % 8 == low / 2 % 8 && (32 * h + low) / 32 == h
  {
    hide HasFlag;
    FlagKept(16 * h, low, 1, 32 * h);
    FlagKept(8 * h, low, 2, 32 * h);
    FlagKept(4 * h, low, 4, 32 * h);
    FlagKept(2 * h, low, 8, 32 * h);
    FlagKept(h, low, 16, 32 * h);
    MiddleKept(h, low);
    DivSplit(h, low, 32);
  }

  lemma MiddleKept(h: nat, low: nat)
    ensures (32 * h + low) / 2 % 8 == low / 2 % 8
  {
    DivSplit(16 * h, low, 2);
    var x := low / 2;
    DivNat(x, 8);
    ModUnique(x % 8, 2 * h + x / 8, 16 * h + x, 8);
  }

  lemma FlagKept(e: nat, low: nat, w: nat, high: nat)
    requires w > 0 && high == 2 * e * w
    ensures HasFlag(high + low, w) == HasFlag(low, w)
  {
    DivSplit(2 * e, low, w);
  }

  lemma DivSplit(h: nat, low: nat, w: nat)
    requires w > 0
    ensures (h * w + low) / w == h + low / w
  {
    DivNat(low, w);
    assert h * w + low == (h + low / w) * w + low % w;
    ModUnique(low % w, h + low / w, h * w + low, w);
  }

  /** The code word is read back flag by flag. */
  lemma CodeParts(n: nat, any: bool, f0: bool, f1: bool, f2: bool, f3: bool, f4: bool, code: nat)
    requires any == (f1 || f2 || f3) && (any || n > 0)
    requires code == 32 * (n - (if any then 0 else 1)) + Low(f0, f1, f2, f3, f4)
    ensures HasFlag(code, 1) == f0 && HasFlag(code, 2) == f1 && HasFlag(code, 4) == f2 && HasFlag(code, 8) == f3
            && HasFlag(code, 16) == f4
    ensures code / 32 + (if code / 2 % 8 != 0 then 0 else 1) == n
  {
    hide HasFlag, Low;
    LowFlags(f0, f1, f2, f3, f4);
    HighKeepsLow(n - (if any then 0 else 1), Low(f0, f1, f2, f3, f4));
  }

  /** The code of every amount fits. */
  predicate AllFit(vout: seq<TxOut>) {
    forall i :: 0 <= i < |vout| && vout[i].Out? && vout[i].value >= 0 ==> Fits(vout[i].value)
  }

  predicate Fits(n: nat) { Compressed(n) < U64 }

  lemma StoredIs(o: TxOut)
    requires o.Out? ==> 0 <= o.value < I64
    ensures Stored(o) == o <==> o == Null || Fits(o.value)
  {
    hide Compressed, Decompressed;
    if o.Out? {
      DecompressInverts(o.value);
      if !Fits(o.value) {
        WrappedIsAnother(o.value);
      }
    }
  }

  lemma StoredAllIs(vout: seq<TxOut>)
    requires Amounts(vout) && Trimmed(vout)
    ensures Trim(StoredAll(vout)) == vout <==> AllFit(vout)
  {
    hide Stored, Fits;
    forall i | 0 <= i < |vout|
      ensures Stored(vout[i]) == vout[i] <==> vout[i] == Null || Fits(vout[i].value)
    {
      StoredIs(vout[i]);
    }
    if AllFit(vout) {
      assert StoredAll(vout) == vout;
      TrimIdle(vout);
    }
    if Trim(StoredAll(vout)) == vout {
      assert forall i :: 0 <= i < |vout| ==> Trim(StoredAll(vout))[i] == Stored(vout[i]);
    }
  }

  /** Reading what was written stops exactly behind it, and gives the entry back exactly when the version,
      which comes from the transaction, is not negative and the code of every amount fits. */
  lemma ReadInvertsWritten(c: Coins, rest: seq<Token>)
    requires Storable(c)
    ensures ReadCoins(Written(c) + rest).Success? && ReadCoins(Written(c) + rest).rest == rest
    ensures ReadCoins(Written(c) + rest).value == c <==> c.version >= 0 && AllFit(c.vout)
  {
    hide ReadCoins, Written, AllFit, StoredAll, Trim;
    ReadIsWired(c, rest);
    StoredAllIs(c.vout);
  }

  lemma ReadIsWired(c: Coins, rest: seq<Token>)
    requires Storable(c)
    ensures ReadCoins(Written(c) + rest)
            == Success(c.(version := Wired(c.version), vout := Trim(StoredAll(c.vout))), rest)
  {
    hide ReadCoins, Wired, CodeOf, Mask, NonZero, AllBits, OutTokens, ReadMask, ReadOuts, Storable, IsPruned, HasFlag,
        Padded,
        Written, RawTokens, Trimmed, Signed, Stored, Trim;
    StorableIs(c);
    CodeSmall(c);
    CodeIsNat(c);
    CodeSplit(c);
    var m, code := Mask(c.vout), CodeOf(c);
    var tail := OutTokens(c.vout, 0) + ([VarInt(c.height)] + rest);
    var t := Written(c) + rest;
    WrittenParts(c, rest);
    MaskEnds(c.vout);
    ReadMaskInverts(m, tail);
    var avail := [Avail(c.vout, 0), Avail(c.vout, 1), Avail(c.vout, 2)] + AllBits(m);
    MaskDescribes(c.vout);
    ReadOutsInverts(c.vout, 0, avail, [VarInt(c.height)] + rest);
    assert c.vout[0..] == c.vout;
    TrimPadded(StoredAll(c.vout), |avail| - |c.vout|);
    var vout := Padded(StoredAll(c.vout), |avail| - |c.vout|);
    ReadCoinsIs(t, code, AllBits(m), tail, vout, [VarInt(c.height)] + rest);
    assert ([VarInt(c.height)] + rest)[1..] == rest;
  }

  /** The parts of a stream put together. */
  lemma ReadCoinsIs(t: seq<Token>, code: nat, more: seq<bool>, tail: seq<Token>, vout: seq<TxOut>, end: seq<Token>)
    requires |t| >= 2 && t[0].VarInt? && t[1].VarInt? && code == t[1].n % U32 && end != [] && end[0].VarInt?
    requires ReadMask(t[2..], code / 32 + if code / 2 % 8 != 0 then 0 else 1) == Success(more, tail)
    requires ReadOuts(tail, [HasFlag(code, 2), HasFlag(code, 4), HasFlag(code, 8)] + more) == Success(vout, end)
    ensures var height, version := Signed(end[0].n, I32), Signed(t[0].n, I32);
            ReadCoins(t)
            == Success(Cleanup(Coins(HasFlag(code, 1), HasFlag(code, 16), vout, height, version)), end[1..])
  {
    hide ReadMask, ReadOuts, HasFlag, Signed, Trim;
  }

  lemma WrittenParts(c: Coins, rest: seq<Token>)
    requires Storable(c)
    ensures var t := Written(c) + rest;
            && |t| >= 2 && t[0] == VarInt(Wired(c.version)) && t[1].VarInt? && t[1].n == CodeOf(c)
            && t[2..] == RawTokens(Mask(c.vout)) + (OutTokens(c.vout, 0) + ([VarInt(c.height)] + rest))
  {
    hide CodeOf, Mask, RawTokens, OutTokens;
    CodeIsNat(c);
    var m, o := RawTokens(Mask(c.vout)), OutTokens(c.vout, 0);
    var head := [VarInt(Wired(c.version)), VarInt(CodeOf(c))];
    assert Written(c) + rest == head + (m + (o + ([VarInt(c.height)] + rest)));
  }

  lemma StorableIs(c: Coins)
    requires Storable(c)
    ensures !IsPruned(c) && Trimmed(c.vout) && c.height >= 0 && Amounts(c.vout)
    ensures Signed(c.height, I32) == c.height && Signed(Wired(c.version), I32) == Wired(c.version)
  {
  }

  /** The mask has so few bytes that the code word fits. */
  lemma CodeFits(c: Coins)
    requires !IsPruned(c) && |c.vout| <= MAX_BLOCK_BASE_SIZE
    ensures 0 <= CodeOf(c) < U32
  {
    hide MaskByte, NonZero, LastUsed;
    CodeIsNat(c);
    assert NonZero(Mask(c.vout)) <= MaskRange(c.vout);
  }

  lemma CodeSmall(c: Coins)
    requires Storable(c)
    ensures 0 <= CodeOf(c) < U32
  {
    hide CodeOf;
    CodeFits(c);
  }

  lemma MaskEnds(vout: seq<TxOut>)
    ensures Mask(vout) != [] ==> Mask(vout)[|Mask(vout)| - 1] != 0
  {
    hide MaskByte;
  }

  lemma CodeSplit(c: Coins)
    requires !IsPruned(c)
    ensures 0 <= CodeOf(c)
    ensures var code := CodeOf(c);
            && HasFlag(code, 1) == c.coinBase && HasFlag(code, 16) == c.coinStake
            && HasFlag(code, 2) == Avail(c.vout, 0) && HasFlag(code, 4) == Avail(c.vout, 1)
            && HasFlag(code, 8) == Avail(c.vout, 2)
            && code / 32 + (if code / 2 % 8 != 0 then 0 else 1) == NonZero(Mask(c.vout))
  {
    hide HasFlag, NonZero, Mask;
    CodeIsNat(c);
    CodeParts(NonZero(Mask(c.vout)), AnyOfFirst(c.vout), c.coinBase, Avail(c.vout, 0), Avail(c.vout, 1),
      Avail(c.vout, 2), c.coinStake, CodeOf(c));
  }

  // ---------------------------------------------------------------- the code

  method Serialize(c: Coins) returns (s: seq<Token>)
    requires Storable(c)
    ensures s == Written(c)
  {
    hide Mask, MaskByte, OutTokens, MaskSize, NonZero;
    var nMaskSize, nMaskCode := CalcMaskSize(c.vout);
    CodeIsNat(c);
    var fFirst := |c.vout| > 0 && c.vout[0] != Null;
    var fSecond := |c.vout| > 1 && c.vout[1] != Null;
    var fThird := |c.vout| > 2 && c.vout[2] != Null;
    assert fFirst || fSecond || fThird || nMaskCode > 0;
    var nCode := 32 * (nMaskCode - (if fFirst || fSecond || fThird then 0 else 1))
                 + (if c.coinBase then 1 else 0) + (if fFirst then 2 else 0) + (if fSecond then 4 else 0)
                   + (if fThird then 8 else 0)
                 + (if c.coinStake then 16 else 0);
    var mask := WriteMask(c.vout, nMaskSize);
    var outs := WriteOuts(c.vout);
    s := [VarInt(Wired(c.version)), VarInt(nCode)];
    s := s + mask;
    s := s + outs;
    s := s + [VarInt(c.height)];
  }

  /** The spentness bit mask, byte by byte. */
  method WriteMask(vout: seq<TxOut>, nMaskSize: nat) returns (s: seq<Token>)
    requires nMaskSize == MaskSize(vout)
    ensures s == RawTokens(Mask(vout))
  {
    hide MaskByte, LastUsed;
    s := [];
    for b := 0 to nMaskSize
      invariant |s| == b && forall k :: 0 <= k < b ==> s[k] == Raw(MaskByte(vout, k))
    {
      var chAvail := ByteFor(vout, b);
      s := s + [Raw(chAvail)];
    }
  }

  method ByteFor(vout: seq<TxOut>, b: nat) returns (chAvail: bv8)
    ensures chAvail == MaskByte(vout, b)
  {
    hide ToBit, OrBit;
    chAvail := 0;
    var i := 0;
    NoBits(vout, b);
    while i < 8 && 3 + b * 8 + i < |vout|
      invariant 0 <= i <= 8 && chAvail == MaskBits(vout, b, i)
    {
      NextBit(vout, b, i);
      chAvail := OrBit(chAvail, vout[3 + b * 8 + i] != Null, i);
      i := i + 1;
    }
    RestOfByte(vout, b, i, 8);
  }

  lemma NoBits(vout: seq<TxOut>, b: nat)
    ensures MaskBits(vout, b, 0) == 0
  {
  }

  lemma NextBit(vout: seq<TxOut>, b: nat, i: nat)
    requires i < 8 && 3 + 8 * b + i < |vout|
    ensures MaskBits(vout, b, i + 1) == OrBit(MaskBits(vout, b, i), vout[3 + b * 8 + i] != Null, i)
  {
    hide ToBit;
    assert 3 + b * 8 + i == 3 + 8 * b + i;
  }

  function OrBit(w: bv8, on: bool, i: nat): bv8
    requires i < 8
  {
    w | (ToBit(on) << i)
  }

  lemma {:induction false} RestOfByte(vout: seq<TxOut>, b: nat, i: nat, n: nat)
    requires i <= n <= 8 && (i < 8 ==> 3 + 8 * b + i >= |vout|)
    ensures MaskBits(vout, b, n) == MaskBits(vout, b, i)
  {
    if i < n {
      RestOfByte(vout, b, i, n - 1);
      NoBit(MaskBits(vout, b, n - 1), n - 1);
    }
  }

  lemma NoBit(w: bv8, i: nat)
    requires i < 8
    ensures w | (ToBit(false) << i) == w
  {
    assert (0 as bv8) << i == 0;
  }

  method WriteOuts(vout: seq<TxOut>) returns (s: seq<Token>)
    requires Amounts(vout)
    ensures s == OutTokens(vout, 0)
  {
    hide Compressed;
    s := [];
    for i := 0 to |vout|
      invariant s + OutTokens(vout, i) == OutTokens(vout, 0)
    {
      if vout[i] != Null {
        var x := CompressAmount(vout[i].value);
        assert s + OutTokens(vout, i) == s + [VarInt(x), Script(vout[i].script)] + OutTokens(vout, i + 1);
        s := s + [VarInt(x), Script(vout[i].script)];
      }
    }
    assert OutTokens(vout, |vout|) == [];
  }

  /** Reads any stream; version, code word and height have 32 bits, amounts 64. */
  method Unserialize(t: seq<Token>) returns (r: Result<Coins>)
    ensures r == ReadCoins(t)
  {
    hide ReadMask, ReadOuts, HasFlag;
    if |t| < 2 || !t[0].VarInt? || !t[1].VarInt? {
      return Failure;
    }
    var nCode := t[1].n % U32;
    var vAvail := [HasFlag(nCode, 2), HasFlag(nCode, 4), HasFlag(nCode, 8)];
    var mask := GetMask(t[2..], nCode / 32 + if nCode / 2 % 8 != 0 then 0 else 1);
    if mask == Failure {
      return Failure;
    }
    var outs := GetOuts(mask.rest, vAvail + mask.value);
    if outs == Failure || outs.rest == [] || !outs.rest[0].VarInt? {
      return Failure;
    }
    var nHeight, nVersion := Signed(outs.rest[0].n, I32), Signed(t[0].n, I32);
    return Success(Cleanup(Coins(HasFlag(nCode, 1), HasFlag(nCode, 16), outs.value, nHeight, nVersion)),
        outs.rest[1..]);
  }

  /** The loop over mask bytes. */
  method GetMask(t: seq<Token>, nMaskCode_: nat) returns (r: Result<seq<bool>>)
    ensures r == ReadMask(t, nMaskCode_)
  {
    hide Bits;
    var vAvail: seq<bool> := [];
    var nMaskCode, i := nMaskCode_, 0;
    assert t[0..] == t;
    ghost var whole := ReadMask(t, nMaskCode_);
    PrependNone(whole);
    while nMaskCode > 0
      invariant 0 <= i <= |t|
      invariant whole == Prepend(vAvail, ReadMask(t[i..], nMaskCode))
      decreases |t| - i
    {
      if i == |t| || !t[i].Raw? {
        return Failure;
      }
      var chAvail := t[i].b;
      assert t[i..][1..] == t[i + 1..];
      PrependTwice(vAvail, Bits(chAvail), ReadMask(t[i + 1..], if chAvail != 0 then nMaskCode - 1 else nMaskCode));
      vAvail := vAvail + Bits(chAvail);
      if chAvail != 0 {
        nMaskCode := nMaskCode - 1;
      }
      i := i + 1;
    }
    assert vAvail + [] == vAvail;
    return Success(vAvail, t[i..]);
  }

  function Prepend<T>(s: seq<T>, r: Result<seq<T>>): Result<seq<T>> {
    if r.Success? then Success(s + r.value, r.rest) else Failure
  }

  lemma PrependNone<T>(r: Result<seq<T>>)
    ensures Prepend([], r) == r
  {
    if r.Success? {
      assert [] + r.value == r.value;
    }
  }

  lemma PrependTwice<T>(a: seq<T>, b: seq<T>, r: Result<seq<T>>)
    ensures Prepend(a, Prepend(b, r)) == Prepend(a + b, r)
  {
    if r.Success? {
      assert a + (b + r.value) == (a + b) + r.value;
    }
  }

  /** The loop over the outputs. */
  method GetOuts(t: seq<Token>, vAvail: seq<bool>) returns (r: Result<seq<TxOut>>)
    ensures r == ReadOuts(t, vAvail)
  {
    hide Decompressed;
    var vout: seq<TxOut> := [];
    var k := 0;
    assert t[0..] == t && vAvail[0..] == vAvail;
    ghost var whole := ReadOuts(t, vAvail);
    PrependNone(whole);
    for i := 0 to |vAvail|
      invariant 0 <= k <= |t|
      invariant whole == Prepend(vout, ReadOuts(t[k..], vAvail[i..]))
    {
      assert vAvail[i..][1..] == vAvail[i + 1..];
      if !vAvail[i] {
        PrependTwice(vout, [Null], ReadOuts(t[k..], vAvail[i + 1..]));
        vout := vout + [Null];
      } else {
        if |t| - k < 2 || !t[k].VarInt? || !t[k + 1].Script? {
          return Failure;
        }
        var nVal := DecompressAmount(t[k].n % U64);
        var value := Signed(nVal, I64);
        var out := if value == -1 then Null else Out(value, t[k + 1].s);
        assert out == GetOut(t[k].n, t[k + 1].s) && nVal < U64;
        assert t[k..][2..] == t[k + 2..];
        PrependTwice(vout, [out], ReadOuts(t[k + 2..], vAvail[i + 1..]));
        vout := vout + [out];
        k := k + 2;
      }
    }
    assert vout + [] == vout;
    return Success(vout, t[k..]);
  }
}
