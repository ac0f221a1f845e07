/** Base58: EncodeBase58 and DecodeBase58 with their digit buffers. */
module Base58 {
  import opened Arithmetic
  import opened Digits

  // ---------------------------------------------------------------- the buffers are large enough

  lemma {:induction false} PowPow(b: nat, s: nat, k: nat)
    ensures Pow(b, s * k) == Pow(Pow(b, s), k)
  {
    if k > 0 {
      PowPow(b, s, k - 1);
      assert s * k == s + s * (k - 1);
      PowSum(b, s, s * (k - 1));
    } else {
      assert s * 0 == 0;
    }
  }

  lemma {:induction false} PowMonoBase(a: nat, b: nat, k: nat)
    requires a <= b
    ensures Pow(a, k) <= Pow(b, k)
  {
    if k > 0 {
      PowMonoBase(a, b, k - 1);
      NoLess(a, b, Pow(a, k - 1));
      NoLess(Pow(a, k - 1), Pow(b, k - 1), b);
      assert a * Pow(a, k - 1) <= b * Pow(a, k - 1) <= b * Pow(b, k - 1);
    }
  }

  lemma {:induction false} PowStrictBase(a: nat, b: nat, k: nat)
    requires a < b && k > 0
    ensures Pow(a, k) < Pow(b, k)
  {
    if k == 1 {
      assert Pow(a, 1) == a * Pow(a, 0) == a && Pow(b, 1) == b * Pow(b, 0) == b;
    } else {
      PowStrictBase(a, b, k - 1);
      NoLess(a, b, Pow(a, k - 1));
      LessScaled(Pow(a, k - 1), Pow(b, k - 1), b);
      assert a * Pow(a, k - 1) <= b * Pow(a, k - 1) < b * Pow(b, k - 1);
    }
  }

  lemma RootMono(a: nat, b: nat, k: nat)
    requires k > 0 && Pow(a, k) >= Pow(b, k)
    ensures a >= b
  {
    if a < b {
      PowStrictBase(a, b, k);
    }
  }

  /** 58^11 exceeds 256^8 ... */
  lemma EncodeRatio()
    ensures Pow(58, 11) >= Pow(256, 8)
  {
    assert Pow(58, 3) == 195112;
    PowSum(58, 3, 3);
    PowSum(58, 6, 3);
    assert Pow(58, 2) == 3364;
    PowSum(58, 9, 2);
    assert Pow(256, 2) == 65536;
    PowSum(256, 2, 2);
    PowSum(256, 4, 4);
  }

  /** ... and 256^52 exceeds 58^71. */
  lemma DecodeRatio()
    ensures Pow(256, 52) >= Pow(58, 71)
  {
    Powers58();
    Powers256();
  }

  const POWER_58_32: nat := 268965015114358137726910587140455987105619365599731777536
  const POWER_256_26: nat := 411376139330301510538742295639337626245683966408394965837152256

  lemma Powers58()
    ensures Pow(58, 71) == POWER_58_32 * POWER_58_32 * 2207984167552
  {
    SmallPowers58();
    hide Pow;
    PowSum(58, 4, 3);
    PowSum(58, 4, 4);
    PowSum(58, 8, 8);
    PowSum(58, 16, 16);
    PowSum(58, 32, 32);
    PowSum(58, 64, 7);
    assert Pow(58, 8) == 128063081718016 && Pow(58, 16) == 16400152899115243850138976256;
  }

  lemma SmallPowers58()
    ensures Pow(58, 3) == 195112 && Pow(58, 4) == 11316496
  {
    assert Pow(58, 2) == 3364;
  }

  lemma Powers256()
    ensures Pow(256, 52) == POWER_256_26 * POWER_256_26
  {
    assert Pow(256, 3) == 16777216;
    PowSum(256, 3, 3);
    PowSum(256, 6, 6);
    assert Pow(256, 1) == 256;
    PowSum(256, 12, 1);
    PowSum(256, 13, 13);
    PowSum(256, 26, 26);
    assert Pow(256, 13) == 20282409603651670423947251286016;
  }

  /** Digits in base b suffice for n digits in base a when b^p >= a^q and p digits stand for q. */
  lemma Capacity(a: nat, b: nat, q: nat, p: nat, n: nat, s: nat)
    requires a > 0 && b > 0 && q > 0 && Pow(b, p) >= Pow(a, q) && q * s >= p * n
    ensures Pow(b, s) >= Pow(a, n)
  {
    hide Pow;
    PowMono(b, p * n, q * s);
    PowPow(b, p, n);
    PowMonoBase(Pow(a, q), Pow(b, p), n);
    PowPow(a, q, n);
    PowPow(a, n, q);
    PowPow(b, s, q);
    assert s * q == q * s && n * q == q * n;
    RootMono(Pow(b, s), Pow(a, n), q);
  }

  /** The buffer of EncodeBase58 holds every number of n bytes. */
  lemma EncodeFits(n: nat)
    ensures Pow(58, n * 138 / 100 + 1) >= Pow(256, n)
  {
    hide Pow;
    EncodeRatio();
    Capacity(256, 58, 8, 11, n, n * 138 / 100 + 1);
  }

  /** The buffer of DecodeBase58 holds every number of n base58 digits. */
  lemma DecodeFits(n: nat)
    ensures Pow(256, n * 733 / 1000 + 1) >= Pow(58, n)
  {
    hide Pow;
    DecodeRatio();
    Capacity(58, 256, 71, 52, n, n * 733 / 1000 + 1);
  }

  // ---------------------------------------------------------------- the alphabet

  /** All alphanumeric characters except "0", "I", "O" and "l". */
  const ALPHABET: string := "123456789" + "ABCDEFGH" + "JKLMN" + "PQRSTUVWXYZ" + "abcdefghijk" + "mnopqrstuvwxyz"

  function Code(d: nat): nat
    requires d < 58
  {
    if d < 9 then 49 + d else if d < 17 then 56 + d else if d < 22 then 57 + d
    else if d < 33 then 58 + d else if d < 44 then 64 + d else 65 + d
  }

  lemma Runs()
    ensures forall i :: 0 <= i < 9 ==> "123456789"[i] as int == 49 + i
    ensures forall i :: 0 <= i < 8 ==> "ABCDEFGH"[i] as int == 65 + i
    ensures forall i :: 0 <= i < 5 ==> "JKLMN"[i] as int == 74 + i
    ensures forall i :: 0 <= i < 11 ==> "PQRSTUVWXYZ"[i] as int == 80 + i
    ensures forall i :: 0 <= i < 11 ==> "abcdefghijk"[i] as int == 97 + i
    ensures forall i :: 0 <= i < 14 ==> "mnopqrstuvwxyz"[i] as int == 109 + i
  {
  }

  lemma LetterIs(d: nat)
    requires d < 58
    ensures |ALPHABET| == 58 && ALPHABET[d] as int == Code(d)
  {
    Runs();
  }

  predicate IsSpace(c: char) { c == ' ' || '\t' <= c <= '\r' }

  /** Digits and letters in ascending order, without the four that are easily mistaken for another. */
  lemma AlphabetIs(c: char)
    ensures |ALPHABET| == 58 && forall i, j :: 0 <= i < j < 58 ==> ALPHABET[i] < ALPHABET[j]
    ensures c in ALPHABET <==>
              ('0' <= c <= '9' || 'A' <= c <= 'Z' || 'a' <= c <= 'z') && c != '0' && c != 'O' && c != 'I' && c != 'l'
  {
    hide ALPHABET;
    LetterIs(0);
    forall i, j | 0 <= i < j < 58
      ensures ALPHABET[i] < ALPHABET[j]
    {
      LetterIs(i);
      LetterIs(j);
    }
    DigitIs(c);
  }

  /** Space, tab, line feed, vertical tab, form feed and carriage return, as for isspace. */
  lemma SpacesAre(c: char)
    ensures IsSpace(c) <==> c as int in {32, 9, 10, 11, 12, 13}
  {
  }

  /** strchr on the alphabet: the digit of a letter, or -1. */
  function DigitOf(c: char): (d: int)
    ensures -1 <= d < 58
  {
    var x := c as int;
    if 49 <= x <= 57 then x - 49 else if 65 <= x <= 72 then x - 56 else if 74 <= x <= 78 then x - 57
    else if 80 <= x <= 90 then x - 58 else if 97 <= x <= 107 then x - 64 else if 109 <= x <= 122 then x - 65 else -1
  }

  /** The letters stand for the digits one to one, and none of them is a space. */
  lemma DigitIs(c: char)
    ensures |ALPHABET| == 58
    ensures DigitOf(c) >= 0 ==> ALPHABET[DigitOf(c)] == c && !IsSpace(c)
    ensures DigitOf(c) < 0 ==> c !in ALPHABET
    ensures DigitOf(c) == 0 <==> c == '1'
  {
    hide ALPHABET;
    LetterIs(0);
    if DigitOf(c) >= 0 {
      LetterIs(DigitOf(c));
    } else {
      forall d | 0 <= d < 58
        ensures ALPHABET[d] != c
      {
        LetterIs(d);
      }
    }
  }

  lemma LetterDigit(d: nat)
    requires d < 58
    ensures |ALPHABET| == 58 && DigitOf(ALPHABET[d]) == d
  {
    hide ALPHABET;
    LetterIs(d);
  }

  // ---------------------------------------------------------------- what is computed

  function Letters(s: seq<nat>): (r: string)
    requires InBase(s, 58)
    ensures |r| == |s|
  {
    LetterIs(0);
    seq(|s|, i requires 0 <= i < |s| => ALPHABET[s[i]])
  }

  predicate OverAlphabet(r: string) { forall i :: 0 <= i < |r| ==> DigitOf(r[i]) >= 0 }

  function DigitsIn(r: string): (s: seq<nat>)
    requires OverAlphabet(r)
    ensures |s| == |r| && InBase(s, 58)
  {
    seq(|r|, i requires 0 <= i < |r| => DigitOf(r[i]))
  }

  function LeadingZeros(s: seq<nat>): (z: nat)
    ensures z <= |s| && AllZero(s[..z]) && (z < |s| ==> s[z] != 0)
  {
    if s == [] || s[0] != 0 then 0
    else
      var z := LeadingZeros(s[1..]) + 1;
      assert s[..z] == [s[0]] + s[1..][..z - 1];
      z
  }

  function Repeat<T>(x: T, n: nat): (r: seq<T>)
    ensures |r| == n && forall i :: 0 <= i < n ==> r[i] == x
  {
    seq(n, _ => x)
  }

  /** One '1' for every leading zero byte, then the number in base 58. */
  function Encode(bytes: seq<nat>): string
    requires InBase(bytes, 256)
  {
    ValueOfDigits(Value(bytes, 256), 58);
    Repeat('1', LeadingZeros(bytes)) + Letters(DigitsOf(Value(bytes, 256), 58))
  }

  function LeadingOnes(r: string): (z: nat)
    ensures z <= |r| && (forall i :: 0 <= i < z ==> r[i] == '1') && (z < |r| ==> r[z] != '1')
  {
    if r == "" || r[0] != '1' then 0 else LeadingOnes(r[1..]) + 1
  }

  function LeadingSpaces(r: string): (z: nat)
    ensures z <= |r| && (forall i :: 0 <= i < z ==> IsSpace(r[i])) && (z < |r| ==> !IsSpace(r[z]))
  {
    if r == "" || !IsSpace(r[0]) then 0 else LeadingSpaces(r[1..]) + 1
  }

  function LeadingText(r: string): (z: nat)
    ensures z <= |r| && (forall i :: 0 <= i < z ==> !IsSpace(r[i])) && (z < |r| ==> IsSpace(r[z]))
  {
    if r == "" || IsSpace(r[0]) then 0 else LeadingText(r[1..]) + 1
  }

  datatype Decoded = Bad | Bytes(bytes: seq<nat>)

  /** Spaces may stand before and after; in between one zero byte for every leading '1', then the number. */
  function Decode(r: string): Decoded {
    var start := LeadingSpaces(r);
    var text := start + LeadingOnes(r[start..]);
    Number(r, text - start, text, text + LeadingText(r[text..]))
  }

  /** The bytes of a number whose digits stand from `text` to `end`, if only spaces follow. */
  function Number(r: string, zeroes: nat, text: nat, end: nat): Decoded
    requires text <= end <= |r|
  {
    if OverAlphabet(r[text..end]) && end + LeadingSpaces(r[end..]) == |r| then
      Bytes(Repeat(0, zeroes) + DigitsOf(Value(DigitsIn(r[text..end]), 58), 256))
    else Bad
  }

  // ---------------------------------------------------------------- round trips

  lemma {:induction false} SplitZeros(s: seq<nat>, b: nat)
    requires b >= 2 && InBase(s, b)
    ensures s == Repeat(0, LeadingZeros(s)) + DigitsOf(Value(s, b), b)
  {
    var z := LeadingZeros(s);
    assert s == s[..z] + s[z..] && s[..z] == Repeat(0, z);
    ValueZeros(s[..z], s[z..], b);
    DigitsOfValue(s[z..], b);
  }

  lemma DecodeText(z: nat, word: string)
    requires OverAlphabet(word) && (word != "" ==> word[0] != '1')
    ensures Decode(Repeat('1', z) + word) == Bytes(Repeat(0, z) + DigitsOf(Value(DigitsIn(word), 58), 256))
  {
    hide DigitsOf, DigitsIn;
    var r := Repeat('1', z) + word;
    forall i | 0 <= i < |r|
      ensures !IsSpace(r[i])
    {
      DigitIs(r[i]);
    }
    assert LeadingSpaces(r) == 0 && r[0..] == r;
    OnesThen(z, word);
    assert r[z..] == word;
    assert r[z..|r|] == word && r[|r|..] == "";
    forall i | 0 <= i < |word|
      ensures !IsSpace(word[i])
    {
      assert word[i] == r[z + i];
    }
    assert LeadingText(word) == |word|;
  }

  lemma OnesThen(z: nat, word: string)
    requires word != "" ==> word[0] != '1'
    ensures LeadingOnes(Repeat('1', z) + word) == z
  {
    var r := Repeat('1', z) + word;
    var n := LeadingOnes(r);
    assert forall i :: 0 <= i < z ==> r[i] == '1';
    if z < |r| {
      assert r[z] == word[0];
    }
  }

  /** Decoding what was encoded gives the bytes back, whatever they are. */
  lemma DecodeInvertsEncode(bytes: seq<nat>)
    requires InBase(bytes, 256)
    ensures Decode(Encode(bytes)) == Bytes(bytes)
  {
    hide Decode, DigitsOf, Value, ALPHABET;
    var v := Value(bytes, 256);
    ValueOfDigits(v, 58);
    var digits := DigitsOf(v, 58);
    var word := Letters(digits);
    forall i | 0 <= i < |word|
      ensures DigitOf(word[i]) == digits[i]
    {
      LetterDigit(digits[i]);
    }
    assert DigitsIn(word) == digits;
    if word != "" {
      DigitsOfZero(58);
      DigitIs(word[0]);
    }
    DecodeText(LeadingZeros(bytes), word);
    SplitZeros(bytes, 256);
  }

  lemma DigitsOfZero(b: nat)
    requires b >= 2
    ensures DigitsOf(0, b) == []
  {
  }

  lemma LettersOfDigits(word: string)
    requires OverAlphabet(word)
    ensures Letters(DigitsIn(word)) == word
    ensures word != "" && word[0] != '1' ==> DigitsIn(word)[0] != 0
  {
    hide ALPHABET;
    forall i | 0 <= i < |word|
      ensures Letters(DigitsIn(word))[i] == word[i]
    {
      DigitIs(word[i]);
    }
    if word != "" {
      DigitIs(word[0]);
    }
  }

  lemma EncodeAfterZeros(z: nat, v: nat)
    ensures InBase(DigitsOf(v, 256), 256) && InBase(DigitsOf(v, 58), 58)
    ensures Encode(Repeat(0, z) + DigitsOf(v, 256)) == Repeat('1', z) + Letters(DigitsOf(v, 58))
  {
    hide DigitsOf, Value, Letters;
    ValueOfDigits(v, 256);
    ValueOfDigits(v, 58);
    DigitsOfZero(256);
    ZerosThen(z, DigitsOf(v, 256));
    ValueZeros(Repeat(0, z), DigitsOf(v, 256), 256);
  }

  /** Encoding what was decoded gives the text back, for every text over the alphabet. */
  lemma EncodeInvertsDecode(r: string)
    requires OverAlphabet(r)
    ensures Decode(r).Bytes? && InBase(Decode(r).bytes, 256) && Encode(Decode(r).bytes) == r
  {
    hide Decode, DigitsOf, Value, DigitOf, Encode, Letters, DigitsIn;
    var z := LeadingOnes(r);
    var word := r[z..];
    assert r == Repeat('1', z) + word;
    DecodeText(z, word);
    LettersOfDigits(word);
    DigitsOfValue(DigitsIn(word), 58);
    EncodeAfterZeros(z, Value(DigitsIn(word), 58));
  }

  lemma ZerosThen(z: nat, s: seq<nat>)
    requires s != [] ==> s[0] != 0
    ensures LeadingZeros(Repeat(0, z) + s) == z
  {
    var r := Repeat(0, z) + s;
    var n := LeadingZeros(r);
    assert forall i :: 0 <= i < z ==> r[i] == 0;
    assert forall i :: 0 <= i < n ==> r[i] == r[..n][i];
    if z < |r| {
      assert r[z] == s[0];
    }
  }

  // ---------------------------------------------------------------- the code

  method EncodeBase58(bytes: seq<nat>) returns (str: string)
    requires InBase(bytes, 256)
    ensures str == Encode(bytes)
  {
    hide Value, Pow, DigitsOf, InBase, ALPHABET, AllZero, Letters;
    var p := 0;
    NoZeros(bytes);
    while p < |bytes| && bytes[p] == 0
      invariant p <= |bytes| && AllZero(bytes[..p])
    {
      ZeroNext(bytes, p);
      p := p + 1;
    }
    ZerosCounted(bytes, p);
    var zeroes := p;
    var b58 := ToBase58(bytes, zeroes);
    var it := SkipZeros(b58);
    Stripped(b58, 58, it);
    EncodeParts(bytes, zeroes);
    str := Repeat('1', zeroes);
    var letters := Translate(b58[it..]);
    str := str + letters;
  }

  /** Translate the digits into letters. */
  method Translate(digits: seq<nat>) returns (r: string)
    requires InBase(digits, 58)
    ensures r == Letters(digits)
  {
    hide ALPHABET;
    LetterIs(0);
    r := "";
    for i := 0 to |digits|
      invariant |r| == i && forall k :: 0 <= k < i ==> r[k] == ALPHABET[digits[k]]
    {
      r := r + [ALPHABET[digits[i]]];
    }
  }

  lemma EncodeParts(bytes: seq<nat>, z: nat)
    requires InBase(bytes, 256) && z == LeadingZeros(bytes)
    ensures Value(bytes[z..], 256) == Value(bytes, 256) && InBase(DigitsOf(Value(bytes, 256), 58), 58)
    ensures Encode(bytes) == Repeat('1', z) + Letters(DigitsOf(Value(bytes, 256), 58))
  {
    assert bytes == bytes[..z] + bytes[z..];
    ValueZeros(bytes[..z], bytes[z..], 256);
    ValueOfDigits(Value(bytes, 256), 58);
  }

  lemma NoZeros(bytes: seq<nat>)
    ensures AllZero(bytes[..0])
  {
  }

  lemma ZerosCounted(bytes: seq<nat>, p: nat)
    requires p <= |bytes| && AllZero(bytes[..p]) && (p < |bytes| ==> bytes[p] != 0)
    ensures p == LeadingZeros(bytes)
  {
    var z := LeadingZeros(bytes);
    assert forall i :: 0 <= i < p ==> bytes[i] == bytes[..p][i];
    assert forall i :: 0 <= i < z ==> bytes[i] == bytes[..z][i];
  }

  /** The digit buffer after all bytes from `from` on were processed. */
  method ToBase58(bytes: seq<nat>, from: nat) returns (digits: seq<nat>)
    requires InBase(bytes, 256) && from <= |bytes|
    ensures InBase(digits, 58) && Value(digits, 58) == Value(bytes[from..], 256)
  {
    hide Value, Pow;
    var size := (|bytes| - from) * 138 / 100 + 1;
    var b58 := new nat[size](_ => 0);
    var length, p := 0, from;
    EncodeFits(|bytes| - from);
    BufferStart(b58[..], 58);
    EmptyValue(256);
    assert bytes[from..from] == [];
    while p < |bytes|
      invariant from <= p <= |bytes| && 0 <= length <= size
      invariant InBase(b58[..], 58) && AllZero(b58[..size - length])
      invariant Value(b58[..], 58) == Value(bytes[from..p], 256)
    {
      ValueGrows(bytes, 256, from, p);
      PrefixBound(bytes, 256, from, p + 1, |bytes| - from);
      length := MultiplyAdd(b58, 58, 256, bytes[p], length);
      p := p + 1;
    }
    assert bytes[from..|bytes|] == bytes[from..];
    digits := b58[..];
  }

  lemma BufferStart(s: seq<nat>, b: nat)
    requires b > 0 && forall i :: 0 <= i < |s| ==> s[i] == 0
    ensures InBase(s, b) && AllZero(s) && Value(s, b) == 0
  {
    ValueZeros(s, [], b);
    assert s + [] == s;
  }

  lemma EmptyValue(b: nat)
    ensures Value([], b) == 0
  {
  }

  method SkipZeros(s: seq<nat>) returns (it: nat)
    ensures it <= |s| && AllZero(s[..it]) && (it < |s| ==> s[it] != 0)
  {
    it := 0;
    while it < |s| && s[it] == 0
      invariant it <= |s| && AllZero(s[..it])
    {
      ZeroNext(s, it);
      it := it + 1;
    }
  }

  /** The run of spaces that starts at a position ends here. */
  lemma SpacesCounted(r: string, from: nat, p: nat)
    requires from <= p <= |r| && (forall i :: from <= i < p ==> IsSpace(r[i])) && (p < |r| ==> !IsSpace(r[p]))
    ensures p == from + LeadingSpaces(r[from..])
  {
    var s := r[from..];
    assert forall i :: 0 <= i < |s| ==> s[i] == r[from + i];
    var z := LeadingSpaces(s);
    if p < |r| {
      assert s[p - from] == r[p];
    }
  }

  lemma OnesCounted(r: string, from: nat, p: nat)
    requires from <= p <= |r| && (forall i :: from <= i < p ==> r[i] == '1') && (p < |r| ==> r[p] != '1')
    ensures p == from + LeadingOnes(r[from..])
  {
    var s := r[from..];
    assert forall i :: 0 <= i < |s| ==> s[i] == r[from + i];
    if p < |r| {
      assert s[p - from] == r[p];
    }
  }

  lemma TextCounted(r: string, from: nat, p: nat)
    requires from <= p <= |r| && (forall i :: from <= i < p ==> !IsSpace(r[i])) && (p < |r| ==> IsSpace(r[p]))
    ensures p == from + LeadingText(r[from..])
  {
    var s := r[from..];
    assert forall i :: 0 <= i < |s| ==> s[i] == r[from + i];
    if p < |r| {
      assert s[p - from] == r[p];
    }
  }

  method DecodeBase58(r: string) returns (ok: bool, vch: seq<nat>)
    ensures ok <==> Decode(r).Bytes?
    ensures ok ==> vch == Decode(r).bytes
  {
    hide DigitsOf, Value, DigitsIn, OverAlphabet, LeadingSpaces, LeadingOnes, LeadingText, IsSpace, DigitOf, InBase,
        AllZero;
    vch := [];
    var a := SkipSpaces(r, 0);
    assert r[0..] == r;
    var z := a;
    while z < |r| && r[z] == '1'
      invariant a <= z <= |r| && forall i :: a <= i < z ==> r[i] == '1'
    {
      z := z + 1;
    }
    OnesCounted(r, a, z);
    var good, e, b256 := ToBase256(r, z);
    if !good {
      BadText(r, a, z, e);
      return false, [];
    }
    var f := SkipSpaces(r, e);
    if f < |r| {
      return false, [];
    }
    var it := SkipZeros(b256);
    Stripped(b256, 256, it);
    ok, vch := true, Repeat(0, z - a) + b256[it..];
  }

  /** Skip spaces from a position on. */
  method SkipSpaces(r: string, from: nat) returns (p: nat)
    requires from <= |r|
    ensures p == from + LeadingSpaces(r[from..]) && from <= p <= |r|
  {
    p := from;
    while p < |r| && IsSpace(r[p])
      invariant from <= p <= |r| && forall i :: from <= i < p ==> IsSpace(r[i])
    {
      p := p + 1;
    }
    SpacesCounted(r, from, p);
  }

  /** A letter outside the alphabet spoils the text, whatever follows. */
  lemma BadText(r: string, a: nat, z: nat, e: nat)
    requires a == LeadingSpaces(r) && z == a + LeadingOnes(r[a..]) && z <= e < |r|
    requires (forall i :: z <= i <= e ==> !IsSpace(r[i])) && DigitOf(r[e]) < 0
    ensures Decode(r) == Bad
  {
    hide LeadingOnes, IsSpace, DigitOf, LeadingText, LeadingSpaces, Number;
    TextReaches(r, z, e);
    NotOver(r, z - a, z, z + LeadingText(r[z..]), e);
  }

  lemma TextReaches(r: string, z: nat, e: nat)
    requires z <= e < |r| && forall i :: z <= i <= e ==> !IsSpace(r[i])
    ensures e < z + LeadingText(r[z..])
  {
    hide IsSpace;
    var s := r[z..];
    assert forall i :: 0 <= i < |s| ==> s[i] == r[z + i];
  }

  lemma NotOver(r: string, zeroes: nat, z: nat, end: nat, e: nat)
    requires z <= e < end <= |r| && DigitOf(r[e]) < 0
    ensures Number(r, zeroes, z, end) == Bad
  {
    hide DigitOf, LeadingSpaces;
    assert r[z..end][e - z] == r[e];
  }

  /** Process the text from `from` on; `end` is where it ends or the first letter that is no digit. */
  method ToBase256(r: string, from: nat) returns (good: bool, end: nat, digits: seq<nat>)
    requires from <= |r|
    ensures from <= end <= |r|
    ensures good ==> end == from + LeadingText(r[from..]) && OverAlphabet(r[from..end])
    ensures good ==> InBase(digits, 256) && Value(digits, 256) == Value(DigitsIn(r[from..end]), 58)
    ensures !good ==> end < |r| && (forall i :: from <= i <= end ==> !IsSpace(r[i])) && DigitOf(r[end]) < 0
  {
    hide Value, Pow, DigitOf, IsSpace, LeadingText;
    digits := [];
    var b256 := new nat[(|r| - from) * 733 / 1000 + 1](_ => 0);
    DecodeFits(|r| - from);
    BufferStart(b256[..], 256);
    EmptyValue(58);
    var p := from;
    assert r[from..from] == "";
    while p < |r| && !IsSpace(r[p])
      invariant from <= p <= |r| && (forall i :: from <= i < p ==> !IsSpace(r[i])) && OverAlphabet(r[from..p])
      invariant InBase(b256[..], 256) && Value(b256[..], 256) == Value(DigitsIn(r[from..p]), 58)
    {
      var d := DigitOf(r[p]);
      if d < 0 {
        return false, p, [];
      }
      NextDigit(r, from, p, |r| - from);
      assert b256[..0] == [];
      var _ := MultiplyAdd(b256, 256, 58, d, b256.Length);
      p := p + 1;
    }
    TextCounted(r, from, p);
    good, end, digits := true, p, b256[..];
  }

  lemma NextDigit(r: string, from: nat, p: nat, most: nat)
    requires from <= p < |r| && OverAlphabet(r[from..p]) && DigitOf(r[p]) >= 0 && p + 1 - from <= most
    ensures OverAlphabet(r[from..p + 1])
    ensures Value(DigitsIn(r[from..p + 1]), 58) == Value(DigitsIn(r[from..p]), 58) * 58 + DigitOf(r[p]) < Pow(58, most)
  {
    hide DigitOf;
    var s, t := r[from..p], r[from..p + 1];
    assert t == s + [r[p]];
    assert DigitsIn(t) == DigitsIn(s) + [DigitOf(r[p])];
    assert DigitsIn(t)[..|s|] == DigitsIn(s);
    ValueBound(DigitsIn(t), 58);
    PowMono(58, |t|, most);
  }
}
