/** The bits of a byte, least significant first. */
module ByteBits {

  predicate BitOf(w: bv8, j: nat)
    requires j < 8
  {
    (w & ((1 as bv8) << j)) != 0
  }

  /** Bit j is the coefficient of 2^j. */
  lemma BitOfIs(w: bv8, j: nat)
    requires j < 8
    ensures BitOf(w, j) <==> (w >> j) % 2 == 1
  {
  }

  function ToBit(b: bool): bv8 { if b then 1 else 0 }

  lemma SetBit(w: bv8, b: bool, j: nat, k: nat)
    requires j < 8 && k < 8
    ensures BitOf(w | (ToBit(b) << j), k) <==> (k == j && b) || BitOf(w, k)
  {
    if b {
      assert BitOf(w | ((1 as bv8) << j), k) <==> k == j || BitOf(w, k);
    } else {
      assert w | ((0 as bv8) << j) == w;
    }
  }

  /** A byte is zero when none of its bits is set. */
  lemma ZeroByte(w: bv8)
    ensures w == 0 <==> forall k :: 0 <= k < 8 ==> !BitOf(w, k)
  {
    if w != 0 {
      assert BitOf(w, 0) || BitOf(w, 1) || BitOf(w, 2) || BitOf(w, 3) || BitOf(w, 4) || BitOf(w, 5) || BitOf(w, 6)
             || BitOf(w, 7);
    } else {
      forall k | 0 <= k < 8
        ensures !BitOf(0, k)
      {
      }
    }
  }
}
