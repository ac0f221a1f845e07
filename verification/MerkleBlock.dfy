/** Partial Merkle trees: the bit and hash vectors of CPartialMerkleTree, their construction
    and their authenticated extraction.  A hash is a number (uint256() is 0) and the pair
    hash is any injective function. */
module MerkleBlock {
  import opened Arithmetic
  import opened ByteBits

  type Hash = nat

  const NULL_HASH: Hash := 0
  const MAX_BLOCK_BASE_SIZE: nat := 1000000

  type PairHash = (Hash, Hash) -> Hash

  ghost predicate Injective(hash: PairHash) {
    forall a, b, c, d :: hash(a, b) == hash(c, d) ==> a == c && b == d
  }

  // ---------------------------------------------------------------- the shape of the tree

  /** Number of nodes at a height of a tree over n leaves. */
  function TreeWidth(n: nat, height: nat): nat {
    (n + Pow2(height) - 1) / Pow2(height)
  }

  /** Node `pos` at `height` covers the leaves from here on. */
  function First(height: nat, pos: nat): nat { pos * Pow2(height) }

  /** A node exists exactly when it covers a leaf. */
  lemma WidthMeansLeaf(n: nat, height: nat, pos: nat)
    ensures pos < TreeWidth(n, height) <==> First(height, pos) < n
  {
    var p := Pow2(height);
    var w := TreeWidth(n, height);
    assert n + p - 1 == p * w + (n + p - 1) % p;
    if pos < w {
      NoLess(pos + 1, w, p);
      assert (pos + 1) * p == pos * p + p;
    } else {
      NoLess(w, pos, p);
    }
  }

  /** The children of a node split its leaves in two. */
  lemma Children(height: nat, pos: nat)
    requires height > 0
    ensures Pow2(height) == 2 * Pow2(height - 1)
    ensures First(height - 1, 2 * pos) == First(height, pos)
    ensures First(height - 1, 2 * pos + 1) == First(height, pos) + Pow2(height - 1)
    ensures First(height, pos + 1) == First(height, pos) + Pow2(height)
  {
    var p := Pow2(height - 1);
    assert (2 * pos) * p == pos * (2 * p);
    assert (2 * pos + 1) * p == (2 * pos) * p + p;
    assert (pos + 1) * Pow2(height) == pos * Pow2(height) + Pow2(height);
  }

  /** One past the last leaf a node covers. */
  function Last(n: nat, height: nat, pos: nat): nat {
    if First(height, pos) + Pow2(height) < n then First(height, pos) + Pow2(height) else n
  }

  predicate HasRight(n: nat, height: nat, pos: nat)
    requires height > 0
  {
    First(height - 1, 2 * pos + 1) < n
  }

  /** The Merkle hash of a node; an only child is paired with itself. */
  function CalcHash(hash: PairHash, txids: seq<Hash>, height: nat, pos: nat): Hash
    requires First(height, pos) < |txids|
  {
    if height == 0 then
      txids[pos]
    else
      Children(height, pos);
      var left := CalcHash(hash, txids, height - 1, 2 * pos);
      var right := if HasRight(|txids|, height, pos) then CalcHash(hash, txids, height - 1, 2 * pos + 1) else left;
      hash(left, right)
  }

  predicate AnyMatch(vMatch: seq<bool>, lo: nat, hi: nat)
    requires hi <= |vMatch|
  {
    exists p :: lo <= p < hi && vMatch[p]
  }

  // ---------------------------------------------------------------- what is stored

  /** The flag bits TraverseAndBuild stores for a node, in depth-first order. */
  function Bits(vMatch: seq<bool>, height: nat, pos: nat): (bits: seq<bool>)
    requires First(height, pos) < |vMatch|
    ensures |bits| > 0
  {
    var n := |vMatch|;
    var parent := AnyMatch(vMatch, First(height, pos), Last(n, height, pos));
    if height == 0 || !parent then [parent]
    else
      Children(height, pos);
      var left := Bits(vMatch, height - 1, 2 * pos);
      [true] + left + if HasRight(n, height, pos) then Bits(vMatch, height - 1, 2 * pos + 1) else []
  }

  /** The hashes TraverseAndBuild stores for a node. */
  function Hashes(hash: PairHash, txids: seq<Hash>, vMatch: seq<bool>, height: nat, pos: nat): (hashes: seq<Hash>)
    requires |txids| == |vMatch| && First(height, pos) < |vMatch|
    ensures |hashes| > 0
  {
    var n := |vMatch|;
    var parent := AnyMatch(vMatch, First(height, pos), Last(n, height, pos));
    if height == 0 || !parent then [CalcHash(hash, txids, height, pos)]
    else
      Children(height, pos);
      var left := Hashes(hash, txids, vMatch, height - 1, 2 * pos);
      left + if HasRight(n, height, pos) then Hashes(hash, txids, vMatch, height - 1, 2 * pos + 1) else []
  }

  // ---------------------------------------------------------------- what is read back

  /** Outcome of a traversal: flag, node hash, bits and hashes used so far, matched txids and their positions. */
  datatype Walk = Walk(bad: bool, hash: Hash, bits: nat, hashes: nat, txids: seq<Hash>, index: seq<nat>)

  function Extract(hash: PairHash, n: nat, vBits: seq<bool>, vHash: seq<Hash>, height: nat, pos: nat, b: nat,
      h: nat): (w: Walk)
    ensures |w.txids| == |w.index|
    ensures b <= w.bits && h <= w.hashes
    decreases height
  {
    if b >= |vBits| then Walk(true, NULL_HASH, b, h, [], [])
    else if height == 0 || !vBits[b] then
      if h >= |vHash| then Walk(true, NULL_HASH, b + 1, h, [], [])
      else if height == 0 && vBits[b] then Walk(false, vHash[h], b + 1, h + 1, [vHash[h]], [pos])
      else Walk(false, vHash[h], b + 1, h + 1, [], [])
    else
      var l := Extract(hash, n, vBits, vHash, height - 1, 2 * pos, b + 1, h);
      if HasRight(n, height, pos) then
        var r := Extract(hash, n, vBits, vHash, height - 1, 2 * pos + 1, l.bits, l.hashes);
        Walk(l.bad || r.bad || r.hash == l.hash, hash(l.hash, r.hash), r.bits, r.hashes, l.txids + r.txids,
          l.index + r.index)
      else
        Walk(l.bad, hash(l.hash, l.hash), l.bits, l.hashes, l.txids, l.index)
  }

  // ---------------------------------------------------------------- soundness

  predicate RealLeaves(w: Walk, txids: seq<Hash>, lo: nat, hi: nat)
    requires |w.txids| == |w.index|
  {
    && (forall i ::
         0 <= i < |w.index| ==> lo <= w.index[i] < hi && w.index[i] < |txids| && w.txids[i] == txids[w.index[i]])
    && (forall i, j :: 0 <= i < j < |w.index| ==> w.index[i] < w.index[j])
  }

  lemma LeavesJoin(l: Walk, r: Walk, w: Walk, txids: seq<Hash>, lo: nat, mid: nat, hi: nat)
    requires |l.txids| == |l.index| && |r.txids| == |r.index| && lo <= mid <= hi
    requires RealLeaves(l, txids, lo, mid) && RealLeaves(r, txids, mid, hi)
    requires w.txids == l.txids + r.txids && w.index == l.index + r.index
    ensures RealLeaves(w, txids, lo, hi)
  {}

  /** Whatever bits and hashes are presented: a traversal that ends well with the true hash of a
      node has found only real leaves of that node, each at its own position, in order. */
  lemma {:induction false} ExtractIsSound(hash: PairHash, txids: seq<Hash>, vBits: seq<bool>, vHash: seq<Hash>,
      height: nat, pos: nat, b: nat, h: nat)
    requires Injective(hash) && First(height, pos) < |txids|
    requires !Extract(hash, |txids|, vBits, vHash, height, pos, b, h).bad
    requires Extract(hash, |txids|, vBits, vHash, height, pos, b, h).hash == CalcHash(hash, txids, height, pos)
    ensures RealLeaves(Extract(hash, |txids|, vBits, vHash, height, pos, b, h), txids, First(height, pos),
            First(height, pos) + Pow2(height))
    decreases height
  {
    hide First, Pow2, RealLeaves, Extract, CalcHash;
    ExtractNeedsBit(hash, |txids|, vBits, vHash, height, pos, b, h);
    if height == 0 || !vBits[b] {
      LeafIsSound(hash, txids, vBits, vHash, height, pos, b, h);
    } else {
      Children(height, pos);
      var n := |txids|;
      ExtractChildren(hash, n, vBits, vHash, height, pos, b, h);
      HashOfParent(hash, txids, height, pos);
      var l := Extract(hash, n, vBits, vHash, height - 1, 2 * pos, b + 1, h);
      ExtractIsSound(hash, txids, vBits, vHash, height - 1, 2 * pos, b + 1, h);
      var w := Extract(hash, n, vBits, vHash, height, pos, b, h);
      if HasRight(n, height, pos) {
        var r := Extract(hash, n, vBits, vHash, height - 1, 2 * pos + 1, l.bits, l.hashes);
        ExtractIsSound(hash, txids, vBits, vHash, height - 1, 2 * pos + 1, l.bits, l.hashes);
        LeavesJoin(l, r, w, txids, First(height, pos), First(height, pos) + Pow2(height - 1),
          First(height, pos) + Pow2(height));
      } else {
        LeavesWiden(l, w, txids, First(height, pos), Pow2(height - 1));
      }
    }
  }

  lemma ExtractNeedsBit(hash: PairHash, n: nat, vBits: seq<bool>, vHash: seq<Hash>, height: nat, pos: nat, b: nat,
      h: nat)
    requires !Extract(hash, n, vBits, vHash, height, pos, b, h).bad
    ensures b < |vBits|
  {
    hide HasRight;
  }

  lemma HashOfParent(hash: PairHash, txids: seq<Hash>, height: nat, pos: nat)
    requires height > 0 && First(height, pos) < |txids|
    ensures First(height - 1, 2 * pos) < |txids|
    ensures CalcHash(hash, txids, height, pos) ==
              var left := CalcHash(hash, txids, height - 1, 2 * pos);
              hash(left, if HasRight(|txids|, height, pos) then CalcHash(hash, txids, height - 1, 2 * pos + 1)
                else left)
  {
    hide First;
    Children(height, pos);
  }

  lemma LeavesWiden(l: Walk, w: Walk, txids: seq<Hash>, lo: nat, half: nat)
    requires |l.txids| == |l.index| && RealLeaves(l, txids, lo, lo + half)
    requires w.txids == l.txids && w.index == l.index
    ensures RealLeaves(w, txids, lo, lo + 2 * half)
  {}

  lemma LeafIsSound(hash: PairHash, txids: seq<Hash>, vBits: seq<bool>, vHash: seq<Hash>, height: nat, pos: nat, b: nat,
      h: nat)
    requires First(height, pos) < |txids| && b < |vBits| && (height == 0 || !vBits[b])
    requires !Extract(hash, |txids|, vBits, vHash, height, pos, b, h).bad
    requires Extract(hash, |txids|, vBits, vHash, height, pos, b, h).hash == CalcHash(hash, txids, height, pos)
    ensures RealLeaves(Extract(hash, |txids|, vBits, vHash, height, pos, b, h), txids, First(height, pos),
            First(height, pos) + Pow2(height))
  {
  }

  // ---------------------------------------------------------------- completeness

  /** The matched positions in a range, in order. */
  function Selected(vMatch: seq<bool>, lo: nat, hi: nat): seq<nat>
    requires hi <= |vMatch|
    decreases hi - lo
  {
    if lo >= hi then [] else (if vMatch[lo] then [lo] else []) + Selected(vMatch, lo + 1, hi)
  }

  function Pick(txids: seq<Hash>, index: seq<nat>): (r: seq<Hash>)
    ensures |r| <= |index|
  {
    if index == [] then [] else (if index[0] < |txids| then [txids[index[0]]] else []) + Pick(txids, index[1..])
  }

  lemma {:induction false} SelectedSplits(vMatch: seq<bool>, lo: nat, mid: nat, hi: nat)
    requires lo <= mid <= hi <= |vMatch|
    ensures Selected(vMatch, lo, hi) == Selected(vMatch, lo, mid) + Selected(vMatch, mid, hi)
    decreases mid - lo
  {
    if lo < mid {
      SelectedSplits(vMatch, lo + 1, mid, hi);
    }
  }

  lemma {:induction false} SelectedNone(vMatch: seq<bool>, lo: nat, hi: nat)
    requires hi <= |vMatch| && !AnyMatch(vMatch, lo, hi)
    ensures Selected(vMatch, lo, hi) == []
    decreases hi - lo
  {
    if lo < hi {
      SelectedNone(vMatch, lo + 1, hi);
    }
  }

  /** Selected lists exactly the matched positions. */
  lemma {:induction false} SelectedIsExact(vMatch: seq<bool>, lo: nat, hi: nat, p: nat)
    requires hi <= |vMatch|
    ensures p in Selected(vMatch, lo, hi) <==> lo <= p < hi && vMatch[p]
    decreases hi - lo
  {
    if lo < hi {
      SelectedIsExact(vMatch, lo + 1, hi, p);
    }
  }

  lemma {:induction false} PickJoins(txids: seq<Hash>, a: seq<nat>, b: seq<nat>)
    ensures Pick(txids, a + b) == Pick(txids, a) + Pick(txids, b)
  {
    if a == [] {
      assert a + b == b;
    } else {
      assert (a + b)[1..] == a[1..] + b;
      PickJoins(txids, a[1..], b);
    }
  }

  ghost predicate Distinct(txids: seq<Hash>) {
    forall i, j :: 0 <= i < j < |txids| ==> txids[i] != txids[j]
  }

  /** Equal node hashes at one height mean equal first leaves. */
  lemma {:induction false} HashPinsFirstLeaf(hash: PairHash, txids: seq<Hash>, height: nat, p: nat, q: nat)
    requires Injective(hash) && First(height, p) < |txids| && First(height, q) < |txids|
    requires CalcHash(hash, txids, height, p) == CalcHash(hash, txids, height, q)
    ensures txids[First(height, p)] == txids[First(height, q)]
  {
    if height > 0 {
      Children(height, p);
      Children(height, q);
      HashPinsFirstLeaf(hash, txids, height - 1, 2 * p, 2 * q);
    }
  }

  lemma SiblingsDiffer(hash: PairHash, txids: seq<Hash>, height: nat, pos: nat)
    requires Injective(hash) && Distinct(txids) && height > 0
    requires First(height, pos) < |txids| && HasRight(|txids|, height, pos)
    ensures First(height - 1, 2 * pos) < |txids|
    ensures CalcHash(hash, txids, height - 1, 2 * pos) != CalcHash(hash, txids, height - 1, 2 * pos + 1)
  {
    Children(height, pos);
    if CalcHash(hash, txids, height - 1, 2 * pos) == CalcHash(hash, txids, height - 1, 2 * pos + 1) {
      HashPinsFirstLeaf(hash, txids, height - 1, 2 * pos, 2 * pos + 1);
    }
  }

  lemma LastOfChildren(n: nat, height: nat, pos: nat)
    requires height > 0 && First(height, pos) < n
    ensures HasRight(n, height, pos) ==>
              && Last(n, height - 1, 2 * pos) == First(height - 1, 2 * pos + 1)
              && Last(n, height - 1, 2 * pos + 1) == Last(n, height, pos)
    ensures !HasRight(n, height, pos) ==> Last(n, height - 1, 2 * pos) == Last(n, height, pos)
  {
    Children(height, pos);
  }

  /** `part` stands in `whole` at position k. */
  predicate Holds<T(==)>(whole: seq<T>, k: nat, part: seq<T>) {
    k + |part| <= |whole| && whole[k..k + |part|] == part
  }

  lemma HoldsParts<T>(whole: seq<T>, k: nat, a: seq<T>, b: seq<T>)
    requires Holds(whole, k, a + b)
    ensures Holds(whole, k, a) && Holds(whole, k + |a|, b)
  {
    assert whole[k..k + |a|] == (a + b)[..|a|];
    assert whole[k + |a|..k + |a| + |b|] == (a + b)[|a|..];
  }

  /** What an honest traversal of a node yields. */
  function Honest(hash: PairHash, txids: seq<Hash>, vMatch: seq<bool>, height: nat, pos: nat, b: nat, h: nat): Walk
    requires |txids| == |vMatch| && First(height, pos) < |vMatch|
  {
    var index := Selected(vMatch, First(height, pos), Last(|txids|, height, pos));
    Walk(false, CalcHash(hash, txids, height, pos),
         b + |Bits(vMatch, height, pos)|, h + |Hashes(hash, txids, vMatch, height, pos)|,
         Pick(txids, index), index)
  }

  lemma HonestLeaf(hash: PairHash, txids: seq<Hash>, vMatch: seq<bool>, vBits: seq<bool>, vHash: seq<Hash>, height: nat,
      pos: nat, b: nat, h: nat)
    requires |txids| == |vMatch| && First(height, pos) < |vMatch|
    requires Holds(vBits, b, Bits(vMatch, height, pos)) && Holds(vHash, h, Hashes(hash, txids, vMatch, height, pos))
    requires height == 0 || !AnyMatch(vMatch, First(height, pos), Last(|vMatch|, height, pos))
    ensures Extract(hash, |txids|, vBits, vHash, height, pos, b, h) == Honest(hash, txids, vMatch, height, pos, b, h)
  {
    var lo, hi := First(height, pos), Last(|vMatch|, height, pos);
    assert vBits[b] == vBits[b..b + 1][0] && vHash[h] == vHash[h..h + 1][0];
    if AnyMatch(vMatch, lo, hi) {
      assert lo == pos && hi == pos + 1 && vMatch[pos];
      assert Selected(vMatch, lo, hi) == [pos];
      assert Pick(txids, [pos]) == [txids[pos]];
    } else {
      SelectedNone(vMatch, lo, hi);
    }
  }

  /** The vectors stored for a node stand in vBits at b and in vHash at h. */
  predicate Stored(hash: PairHash, txids: seq<Hash>, vMatch: seq<bool>, vBits: seq<bool>, vHash: seq<Hash>, height: nat,
      pos: nat, b: nat, h: nat) {
    && |txids| == |vMatch| && First(height, pos) < |vMatch|
    && Holds(vBits, b, Bits(vMatch, height, pos))
    && Holds(vHash, h, Hashes(hash, txids, vMatch, height, pos))
  }

  lemma BitsOfParent(vMatch: seq<bool>, height: nat, pos: nat)
    requires First(height, pos) < |vMatch| && height > 0
    requires AnyMatch(vMatch, First(height, pos), Last(|vMatch|, height, pos))
    ensures First(height - 1, 2 * pos) < |vMatch|
    ensures Bits(vMatch, height, pos) == [true] + (Bits(vMatch, height - 1, 2 * pos) +
              if HasRight(|vMatch|, height, pos) then Bits(vMatch, height - 1, 2 * pos + 1) else [])
  {
    hide First, Last, AnyMatch;
    Children(height, pos);
  }

  /** An inner node's bits are its flag followed by those of its children ... */
  lemma HoldsChildBits(vMatch: seq<bool>, vBits: seq<bool>, height: nat, pos: nat, b: nat)
    requires First(height, pos) < |vMatch| && height > 0
    requires AnyMatch(vMatch, First(height, pos), Last(|vMatch|, height, pos))
    requires Holds(vBits, b, Bits(vMatch, height, pos))
    ensures b < |vBits| && vBits[b] && First(height - 1, 2 * pos) < |vMatch|
    ensures Holds(vBits, b + 1, Bits(vMatch, height - 1, 2 * pos))
    ensures HasRight(|vMatch|, height, pos) ==>
              Holds(vBits, b + 1 + |Bits(vMatch, height - 1, 2 * pos)|, Bits(vMatch, height - 1, 2 * pos + 1))
  {
    hide First, Last, AnyMatch, Bits, Holds;
    BitsOfParent(vMatch, height, pos);
    var l := Bits(vMatch, height - 1, 2 * pos);
    var r := if HasRight(|vMatch|, height, pos) then Bits(vMatch, height - 1, 2 * pos + 1) else [];
    HoldsParts(vBits, b, [true], l + r);
    HoldsParts(vBits, b + 1, l, r);
    HoldsFirst(vBits, b, true);
  }

  lemma HoldsFirst<T>(whole: seq<T>, k: nat, x: T)
    requires Holds(whole, k, [x])
    ensures k < |whole| && whole[k] == x
  {
    assert whole[k] == whole[k..k + 1][0];
  }

  /** ... and its hashes are those of its children. */
  lemma HoldsChildHashes(hash: PairHash, txids: seq<Hash>, vMatch: seq<bool>, vHash: seq<Hash>, height: nat, pos: nat,
      h: nat)
    requires |txids| == |vMatch| && First(height, pos) < |vMatch| && height > 0
    requires AnyMatch(vMatch, First(height, pos), Last(|vMatch|, height, pos))
    requires Holds(vHash, h, Hashes(hash, txids, vMatch, height, pos))
    ensures First(height - 1, 2 * pos) < |vMatch|
    ensures Holds(vHash, h, Hashes(hash, txids, vMatch, height - 1, 2 * pos))
    ensures HasRight(|vMatch|, height, pos) ==>
              Holds(vHash, h + |Hashes(hash, txids, vMatch, height - 1, 2 * pos)|,
                Hashes(hash, txids, vMatch, height - 1, 2 * pos + 1))
  {
    Children(height, pos);
    var l := Hashes(hash, txids, vMatch, height - 1, 2 * pos);
    var r := if HasRight(|vMatch|, height, pos) then Hashes(hash, txids, vMatch, height - 1, 2 * pos + 1) else [];
    HoldsParts(vHash, h, l, r);
  }

  lemma StoredChildren(hash: PairHash, txids: seq<Hash>, vMatch: seq<bool>, vBits: seq<bool>, vHash: seq<Hash>,
      height: nat, pos: nat, b: nat, h: nat)
    requires Stored(hash, txids, vMatch, vBits, vHash, height, pos, b, h) && height > 0
    requires AnyMatch(vMatch, First(height, pos), Last(|vMatch|, height, pos))
    ensures b < |vBits| && vBits[b]
    ensures Stored(hash, txids, vMatch, vBits, vHash, height - 1, 2 * pos, b + 1, h)
    ensures HasRight(|vMatch|, height, pos) ==>
              var l := Honest(hash, txids, vMatch, height - 1, 2 * pos, b + 1, h);
              Stored(hash, txids, vMatch, vBits, vHash, height - 1, 2 * pos + 1, l.bits, l.hashes)
  {
    hide First, Last, AnyMatch, Bits, Hashes, Holds, Selected, CalcHash, Pick;
    HoldsChildBits(vMatch, vBits, height, pos, b);
    HoldsChildHashes(hash, txids, vMatch, vHash, height, pos, h);
  }

  /** Honest children make an honest parent. */
  lemma HonestParent(hash: PairHash, txids: seq<Hash>, vMatch: seq<bool>, height: nat, pos: nat, b: nat, h: nat,
      l: Walk, r: Walk)
    requires Injective(hash) && Distinct(txids)
    requires |txids| == |vMatch| && First(height, pos) < |vMatch| && height > 0
    requires AnyMatch(vMatch, First(height, pos), Last(|txids|, height, pos))
    requires First(height - 1, 2 * pos) < |vMatch|
    requires l == Honest(hash, txids, vMatch, height - 1, 2 * pos, b + 1, h)
    requires HasRight(|txids|, height, pos) ==>
               r == Honest(hash, txids, vMatch, height - 1, 2 * pos + 1, l.bits, l.hashes)
    ensures Honest(hash, txids, vMatch, height, pos, b, h) ==
              if HasRight(|txids|, height, pos) then
                Walk(l.bad || r.bad || r.hash == l.hash, hash(l.hash, r.hash), r.bits, r.hashes, l.txids + r.txids,
                  l.index + r.index)
              else
                Walk(l.bad, hash(l.hash, l.hash), l.bits, l.hashes, l.txids, l.index)
  {
    Children(height, pos);
    LastOfChildren(|txids|, height, pos);
    if HasRight(|txids|, height, pos) {
      HonestJoins(hash, txids, vMatch, height, pos);
    }
  }

  /** The vectors TraverseAndBuild stores are read back completely and exactly, wherever they stand. */
  lemma {:induction false} ExtractInvertsBuild(hash: PairHash, txids: seq<Hash>, vMatch: seq<bool>, vBits: seq<bool>,
      vHash: seq<Hash>, height: nat, pos: nat, b: nat, h: nat)
    requires Injective(hash) && Distinct(txids)
    requires Stored(hash, txids, vMatch, vBits, vHash, height, pos, b, h)
    ensures Extract(hash, |txids|, vBits, vHash, height, pos, b, h) == Honest(hash, txids, vMatch, height, pos, b, h)
    decreases height
  {
    hide First, Last, AnyMatch, Holds, Bits, Hashes, Honest, Extract, Injective, Distinct;
    var n := |txids|;
    LastBound(n, height, pos);
    if height == 0 || !AnyMatch(vMatch, First(height, pos), Last(n, height, pos)) {
      HonestLeaf(hash, txids, vMatch, vBits, vHash, height, pos, b, h);
    } else {
      StoredChildren(hash, txids, vMatch, vBits, vHash, height, pos, b, h);
      ExtractInvertsBuild(hash, txids, vMatch, vBits, vHash, height - 1, 2 * pos, b + 1, h);
      var l := Honest(hash, txids, vMatch, height - 1, 2 * pos, b + 1, h);
      var r := l;
      if HasRight(n, height, pos) {
        ExtractInvertsBuild(hash, txids, vMatch, vBits, vHash, height - 1, 2 * pos + 1, l.bits, l.hashes);
        r := Honest(hash, txids, vMatch, height - 1, 2 * pos + 1, l.bits, l.hashes);
      }
      ExtractChildren(hash, n, vBits, vHash, height, pos, b, h);
      HonestParent(hash, txids, vMatch, height, pos, b, h, l, r);
    }
  }

  lemma ExtractChildren(hash: PairHash, n: nat, vBits: seq<bool>, vHash: seq<Hash>, height: nat, pos: nat, b: nat,
      h: nat)
    requires b < |vBits| && vBits[b] && height > 0
    ensures var l := Extract(hash, n, vBits, vHash, height - 1, 2 * pos, b + 1, h);
            var r := Extract(hash, n, vBits, vHash, height - 1, 2 * pos + 1, l.bits, l.hashes);
            Extract(hash, n, vBits, vHash, height, pos, b, h) ==
              if HasRight(n, height, pos) then
                Walk(l.bad || r.bad || r.hash == l.hash, hash(l.hash, r.hash), r.bits, r.hashes, l.txids + r.txids,
                  l.index + r.index)
              else
                Walk(l.bad, hash(l.hash, l.hash), l.bits, l.hashes, l.txids, l.index)
  {
    hide HasRight;
  }

  lemma HonestJoins(hash: PairHash, txids: seq<Hash>, vMatch: seq<bool>, height: nat, pos: nat)
    requires Injective(hash) && Distinct(txids) && height > 0
    requires |txids| == |vMatch| && First(height, pos) < |vMatch| && HasRight(|txids|, height, pos)
    ensures First(height - 1, 2 * pos) < |txids|
    ensures var l := Selected(vMatch, First(height - 1, 2 * pos), Last(|txids|, height - 1, 2 * pos));
            var r := Selected(vMatch, First(height - 1, 2 * pos + 1), Last(|txids|, height - 1, 2 * pos + 1));
            var all := Selected(vMatch, First(height, pos), Last(|txids|, height, pos));
            && all == l + r && Pick(txids, all) == Pick(txids, l) + Pick(txids, r)
    ensures CalcHash(hash, txids, height - 1, 2 * pos) != CalcHash(hash, txids, height - 1, 2 * pos + 1)
  {
    var n := |txids|;
    Children(height, pos);
    LastOfChildren(n, height, pos);
    SiblingsDiffer(hash, txids, height, pos);
    var lo, mid, hi := First(height, pos), First(height - 1, 2 * pos + 1), Last(n, height, pos);
    SelectedSplits(vMatch, lo, mid, hi);
    PickJoins(txids, Selected(vMatch, lo, mid), Selected(vMatch, mid, hi));
  }

  // ---------------------------------------------------------------- how much is stored

  lemma {:induction false} SelectedNonEmpty(vMatch: seq<bool>, lo: nat, hi: nat)
    requires hi <= |vMatch| && AnyMatch(vMatch, lo, hi)
    ensures |Selected(vMatch, lo, hi)| >= 1
  {
    var p :| lo <= p < hi && vMatch[p];
    SelectedIsExact(vMatch, lo, hi, p);
  }

  /** Never more hashes than covered leaves, nor than bits. */
  lemma {:induction false} StoredPerLeaf(hash: PairHash, txids: seq<Hash>, vMatch: seq<bool>, height: nat, pos: nat)
    requires |txids| == |vMatch| && First(height, pos) < |vMatch|
    ensures |Hashes(hash, txids, vMatch, height, pos)| <= Last(|vMatch|, height, pos) - First(height, pos)
    ensures |Hashes(hash, txids, vMatch, height, pos)| <= |Bits(vMatch, height, pos)|
    decreases height
  {
    if height > 0 {
      Children(height, pos);
      LastOfChildren(|vMatch|, height, pos);
      StoredPerLeaf(hash, txids, vMatch, height - 1, 2 * pos);
      if HasRight(|vMatch|, height, pos) {
        StoredPerLeaf(hash, txids, vMatch, height - 1, 2 * pos + 1);
      }
    }
  }

  /** Never more hashes than one plus the matched leaves times the height. */
  lemma {:induction false} StoredPerMatch(hash: PairHash, txids: seq<Hash>, vMatch: seq<bool>, height: nat, pos: nat)
    requires |txids| == |vMatch| && First(height, pos) < |vMatch|
    ensures |Hashes(hash, txids, vMatch, height, pos)|
            <= 1 + |Selected(vMatch, First(height, pos), Last(|vMatch|, height, pos))| * height
    decreases height
  {
    hide First, Last, AnyMatch, CalcHash, Selected;
    var n := |vMatch|;
    LastBound(n, height, pos);
    var lo, hi := First(height, pos), Last(n, height, pos);
    if height == 0 || !AnyMatch(vMatch, lo, hi) {
      MatchBound(|Selected(vMatch, lo, hi)|, height);
    } else {
      Children(height, pos);
      LastOfChildren(n, height, pos);
      SelectedNonEmpty(vMatch, lo, hi);
      StoredPerMatch(hash, txids, vMatch, height - 1, 2 * pos);
      if HasRight(n, height, pos) {
        StoredPerMatch(hash, txids, vMatch, height - 1, 2 * pos + 1);
        var mid := First(height - 1, 2 * pos + 1);
        SelectedSplits(vMatch, lo, mid, hi);
        MatchArithmetic(|Selected(vMatch, lo, mid)|, |Selected(vMatch, mid, hi)|, height);
      } else {
        MatchArithmetic(|Selected(vMatch, lo, hi)|, 0, height);
      }
    }
  }

  lemma LastBound(n: nat, height: nat, pos: nat)
    requires First(height, pos) < n
    ensures First(height, pos) <= Last(n, height, pos) <= n
    ensures height > 0 && HasRight(n, height, pos) ==>
              First(height, pos) <= First(height - 1, 2 * pos + 1) <= Last(n, height, pos)
  {
    if height > 0 {
      Children(height, pos);
      LastOfChildren(n, height, pos);
    }
  }

  lemma MatchBound(l: nat, height: nat)
    ensures 0 <= l * height
  {
    NoLess(0, l, height);
  }

  lemma MatchArithmetic(l: nat, r: nat, height: nat)
    requires l + r >= 1 && height >= 1
    ensures (1 + l * (height - 1)) + (1 + r * (height - 1)) <= 1 + (l + r) * height
  {
    assert (l + r) * height == l * (height - 1) + r * (height - 1) + l + r;
  }

  // ---------------------------------------------------------------- whole trees

  /** The height at which a single node covers all leaves: the loop from nHeight = h on. */
  function TreeHeight(n: nat, h: nat): (r: nat)
    ensures h <= r && TreeWidth(n, r) <= 1
    decreases n - Pow2(h)
  {
    if TreeWidth(n, h) > 1 then
      WidthMeansLeaf(n, h, 1);
      TreeHeight(n, h + 1)
    else h
  }

  function Root(hash: PairHash, txids: seq<Hash>): Hash
    requires txids != []
  {
    CalcHash(hash, txids, TreeHeight(|txids|, 0), 0)
  }

  lemma RootCoversAll(n: nat)
    requires n > 0
    ensures First(TreeHeight(n, 0), 0) == 0 && Last(n, TreeHeight(n, 0), 0) == n
  {
    WidthMeansLeaf(n, TreeHeight(n, 0), 1);
  }

  /** ExtractMatches on the vectors of a tree whose fBad flag is `bad`: root (or 0), txids, positions. */
  function Matches(hash: PairHash, n: nat, vBits: seq<bool>, vHash: seq<Hash>,
      bad: bool): (r: (Hash, seq<Hash>, seq<nat>))
    ensures |r.1| == |r.2|
  {
    if n == 0 || n > MAX_BLOCK_BASE_SIZE / 60 || |vHash| > n || |vBits| < |vHash| then (NULL_HASH, [], [])
    else
      var w := Extract(hash, n, vBits, vHash, TreeHeight(n, 0), 0, 0, 0);
      var fine := !bad && !w.bad && (w.bits + 7) / 8 == (|vBits| + 7) / 8 && w.hashes == |vHash|;
      (if fine then w.hash else NULL_HASH, w.txids, w.index)
  }

  /** Authentication.  Whoever made the vectors: when ExtractMatches answers with the (non-zero)
      Merkle root of a block, every txid it reports is the block's txid at the reported position,
      and no position is reported twice. */
  lemma MatchesAreAuthentic(hash: PairHash, txids: seq<Hash>, vBits: seq<bool>, vHash: seq<Hash>, bad: bool)
    requires Injective(hash) && txids != []
    requires Root(hash, txids) != NULL_HASH
    requires Matches(hash, |txids|, vBits, vHash, bad).0 == Root(hash, txids)
    ensures var (_, found, index) := Matches(hash, |txids|, vBits, vHash, bad);
            && (forall i :: 0 <= i < |index| ==> index[i] < |txids| && found[i] == txids[index[i]])
            && (forall i, j :: 0 <= i < j < |index| ==> index[i] < index[j])
  {
    ExtractIsSound(hash, txids, vBits, vHash, TreeHeight(|txids|, 0), 0, 0, 0);
  }

  // ---------------------------------------------------------------- flag bits in bytes

  function Unpack(bytes: seq<bv8>): (bits: seq<bool>) {
    seq(8 * |bytes|, p requires 0 <= p < 8 * |bytes| => BitOf(bytes[p / 8], p % 8))
  }

  /** The flag bits packed eight to a byte, least significant bit first. */
  method Pack(vBits: seq<bool>) returns (bytes: seq<bv8>)
    ensures |bytes| == (|vBits| + 7) / 8
    ensures forall p :: 0 <= p < 8 * |bytes| ==> Unpack(bytes)[p] == (p < |vBits| && vBits[p])
  {
    var vBytes := new bv8[(|vBits| + 7) / 8](_ => 0);
    for p := 0 to |vBits|
      invariant forall q :: 0 <= q < 8 * vBytes.Length ==> BitOf(vBytes[q / 8], q % 8) == (q < p && vBits[q])
    {
      var old8 := vBytes[p / 8];
      vBytes[p / 8] := old8 | (ToBit(vBits[p]) << (p % 8));
      forall q | 0 <= q < 8 * vBytes.Length
        ensures BitOf(vBytes[q / 8], q % 8) == (q < p + 1 && vBits[q])
      {
        if q / 8 == p / 8 {
          SetBit(old8, vBits[p], p % 8, q % 8);
        }
      }
    }
    bytes := vBytes[..];
  }

  /** Packed and unpacked bits are the same bits with up to seven false ones behind. */
  lemma PaddedBits(vBits: seq<bool>, bytes: seq<bv8>)
    requires |bytes| == (|vBits| + 7) / 8
    requires forall p :: 0 <= p < 8 * |bytes| ==> Unpack(bytes)[p] == (p < |vBits| && vBits[p])
    ensures |vBits| <= |Unpack(bytes)| && Unpack(bytes)[..|vBits|] == vBits
    ensures (|Unpack(bytes)| + 7) / 8 == (|vBits| + 7) / 8
  {}

  /** Round trip.  A tree built from distinct txids, sent through any vector that starts with its
      flag bits and is padded to whole bytes, gives back the Merkle root, exactly the selected
      positions in order, and their txids. */
  lemma HonestRoundTrip(hash: PairHash, txids: seq<Hash>, vMatch: seq<bool>, vBits: seq<bool>)
    requires Injective(hash) && Distinct(txids)
    requires 0 < |txids| == |vMatch| <= 16666
    requires var bits := Bits(vMatch, TreeHeight(|txids|, 0), 0);
             |bits| <= |vBits| && vBits[..|bits|] == bits && (|bits| + 7) / 8 == (|vBits| + 7) / 8
    ensures var selected := Selected(vMatch, 0, |vMatch|);
            Matches(hash, |txids|, vBits, Hashes(hash, txids, vMatch, TreeHeight(|txids|, 0), 0), false)
              == (Root(hash, txids), Pick(txids, selected), selected)
  {
    var height := TreeHeight(|txids|, 0);
    RootCoversAll(|txids|);
    StoredPerLeaf(hash, txids, vMatch, height, 0);
    var vHash := Hashes(hash, txids, vMatch, height, 0);
    assert Holds(vHash, 0, vHash);
    assert Stored(hash, txids, vMatch, vBits, vHash, height, 0, 0, 0);
    ExtractInvertsBuild(hash, txids, vMatch, vBits, vHash, height, 0, 0, 0);
  }

  // ---------------------------------------------------------------- the class

  /** What an inner node with a match stores behind given vectors, in the order of the traversal. */
  lemma ParentStores(hash: PairHash, txids: seq<Hash>, vMatch: seq<bool>, height: nat, pos: nat, vBits: seq<bool>,
      vHash: seq<Hash>)
    requires |txids| == |vMatch| && First(height, pos) < |vMatch| && height > 0
    requires AnyMatch(vMatch, First(height, pos), Last(|vMatch|, height, pos))
    ensures First(height - 1, 2 * pos) < |vMatch|
    ensures var right := HasRight(|vMatch|, height, pos);
            && vBits + Bits(vMatch, height, pos) ==
                 (var b := vBits + [true] + Bits(vMatch, height - 1, 2 * pos);
                  if right then b + Bits(vMatch, height - 1, 2 * pos + 1) else b)
            && vHash + Hashes(hash, txids, vMatch, height, pos) ==
                 (var h := vHash + Hashes(hash, txids, vMatch, height - 1, 2 * pos);
                  if right then h + Hashes(hash, txids, vMatch, height - 1, 2 * pos + 1) else h)
  {
    Children(height, pos);
    var l, lh := Bits(vMatch, height - 1, 2 * pos), Hashes(hash, txids, vMatch, height - 1, 2 * pos);
    if HasRight(|vMatch|, height, pos) {
      var r, rh := Bits(vMatch, height - 1, 2 * pos + 1), Hashes(hash, txids, vMatch, height - 1, 2 * pos + 1);
      assert vBits + ([true] + l + r) == vBits + [true] + l + r;
      assert vHash + (lh + rh) == vHash + lh + rh;
    } else {
      assert vBits + ([true] + l + []) == vBits + [true] + l;
      assert vHash + (lh + []) == vHash + lh;
    }
  }

  lemma LeafStores(hash: PairHash, txids: seq<Hash>, vMatch: seq<bool>, height: nat, pos: nat)
    requires |txids| == |vMatch| && First(height, pos) < |vMatch|
    requires height == 0 || !AnyMatch(vMatch, First(height, pos), Last(|vMatch|, height, pos))
    ensures Bits(vMatch, height, pos) == [AnyMatch(vMatch, First(height, pos), Last(|vMatch|, height, pos))]
    ensures Hashes(hash, txids, vMatch, height, pos) == [CalcHash(hash, txids, height, pos)]
  {
    hide First, AnyMatch, CalcHash;
  }

  /** One descent of Extract into both children, or into the only one. */
  lemma ExtractParent(hash: PairHash, n: nat, vBits: seq<bool>, vHash: seq<Hash>, height: nat, pos: nat, b: nat, h: nat,
      vMatch: seq<Hash>, vnIndex: seq<nat>)
    requires b < |vBits| && vBits[b] && height > 0
    ensures var w := Extract(hash, n, vBits, vHash, height, pos, b, h);
            var l := Extract(hash, n, vBits, vHash, height - 1, 2 * pos, b + 1, h);
            var r := Extract(hash, n, vBits, vHash, height - 1, 2 * pos + 1, l.bits, l.hashes);
            if HasRight(n, height, pos) then
              && w.hash == hash(l.hash, r.hash) && w.bits == r.bits && w.hashes == r.hashes
              && w.bad == (l.bad || r.bad || r.hash == l.hash)
              && vMatch + w.txids == vMatch + l.txids + r.txids && vnIndex + w.index == vnIndex + l.index + r.index
            else
              && w.hash == hash(l.hash, l.hash) && w.bits == l.bits && w.hashes == l.hashes && w.bad == l.bad
              && w.txids == l.txids && w.index == l.index
  {
    hide HasRight;
    ExtractChildren(hash, n, vBits, vHash, height, pos, b, h);
  }

  lemma ExtractLeaf(hash: PairHash, n: nat, vBits: seq<bool>, vHash: seq<Hash>, height: nat, pos: nat, b: nat, h: nat)
    requires b >= |vBits| || height == 0 || !vBits[b]
    ensures Extract(hash, n, vBits, vHash, height, pos, b, h) ==
              if b >= |vBits| then Walk(true, NULL_HASH, b, h, [], [])
              else if h >= |vHash| then Walk(true, NULL_HASH, b + 1, h, [], [])
              else if vBits[b] then Walk(false, vHash[h], b + 1, h + 1, [vHash[h]], [pos])
              else Walk(false, vHash[h], b + 1, h + 1, [], [])
  {
  }

  class PartialMerkleTree {
    const hash: PairHash
    var nTransactions: nat
    var vBits: seq<bool>
    var vHash: seq<Hash>
    var fBad: bool

    /** Build the tree of a block's txids with the selected ones marked. */
    constructor (hash: PairHash, vTxid: seq<Hash>, vMatch: seq<bool>)
      requires 0 < |vTxid| == |vMatch|
      ensures this.hash == hash && nTransactions == |vTxid| && !fBad
      ensures vBits == Bits(vMatch, TreeHeight(|vTxid|, 0), 0)
      ensures vHash == Hashes(hash, vTxid, vMatch, TreeHeight(|vTxid|, 0), 0)
    {
      this.hash := hash;
      nTransactions, fBad := |vTxid|, false;
      vBits, vHash := [], [];
      new;
      var nHeight := 0;
      while TreeWidth(nTransactions, nHeight) > 1
        invariant TreeHeight(nTransactions, 0) == TreeHeight(nTransactions, nHeight)
        invariant nTransactions == |vTxid| && vBits == [] && vHash == [] && !fBad
        decreases nTransactions - Pow2(nHeight)
      {
        WidthMeansLeaf(nTransactions, nHeight, 1);
        nHeight := nHeight + 1;
      }
      TraverseAndBuild(nHeight, 0, vTxid, vMatch);
    }

    /** Read the vectors of a message. */
    constructor FromWire(hash: PairHash, nTransactions: nat, vHash: seq<Hash>, vBytes: seq<bv8>)
      ensures this.hash == hash && this.nTransactions == nTransactions && this.vHash == vHash && !fBad
      ensures vBits == Unpack(vBytes)
    {
      this.hash := hash;
      this.nTransactions, this.vHash, fBad := nTransactions, vHash, false;
      vBits := Unpack(vBytes);
    }

    /** Whether a node is the parent of at least one matched txid. */
    method ParentOfMatch(height: nat, pos: nat, vMatch: seq<bool>) returns (fParentOfMatch: bool)
      requires nTransactions == |vMatch| && First(height, pos) < |vMatch|
      ensures fParentOfMatch == AnyMatch(vMatch, First(height, pos), Last(|vMatch|, height, pos))
    {
      fParentOfMatch := false;
      var p := pos * Pow2(height);
      assert (pos + 1) * Pow2(height) == First(height, pos) + Pow2(height);
      while p < (pos + 1) * Pow2(height) && p < nTransactions
        invariant First(height, pos) <= p <= Last(nTransactions, height, pos)
        invariant fParentOfMatch == AnyMatch(vMatch, First(height, pos), p)
      {
        NextMatch(vMatch, First(height, pos), p);
        fParentOfMatch := fParentOfMatch || vMatch[p];
        p := p + 1;
      }
    }

    method TraverseAndBuild(height: nat, pos: nat, vTxid: seq<Hash>, vMatch: seq<bool>)
      requires nTransactions == |vTxid| == |vMatch| && First(height, pos) < |vMatch|
      modifies this`vBits, this`vHash
      ensures vBits == old(vBits) + Bits(vMatch, height, pos)
      ensures vHash == old(vHash) + Hashes(hash, vTxid, vMatch, height, pos)
      decreases height
    {
      hide Bits, Hashes, First, AnyMatch, TreeWidth, CalcHash;
      var fParentOfMatch := ParentOfMatch(height, pos, vMatch);
      vBits := vBits + [fParentOfMatch];
      if height == 0 || !fParentOfMatch {
        LeafStores(hash, vTxid, vMatch, height, pos);
        vHash := vHash + [CalcHash(hash, vTxid, height, pos)];
      } else {
        Children(height, pos);
        WidthMeansLeaf(nTransactions, height - 1, 2 * pos + 1);
        ParentStores(hash, vTxid, vMatch, height, pos, vBits[..|vBits| - 1], vHash);
        TraverseAndBuild(height - 1, pos * 2, vTxid, vMatch);
        if pos * 2 + 1 < TreeWidth(nTransactions, height - 1) {
          TraverseAndBuild(height - 1, pos * 2 + 1, vTxid, vMatch);
        }
      }
    }

    method TraverseAndExtract(height: nat, pos: nat, nBitsUsed: nat, nHashUsed: nat, vMatch: seq<Hash>,
        vnIndex: seq<nat>)
      returns (node: Hash, bitsUsed: nat, hashUsed: nat, matched: seq<Hash>, index: seq<nat>)
      modifies this`fBad
      ensures var w := Extract(hash, nTransactions, vBits, vHash, height, pos, nBitsUsed, nHashUsed);
              && node == w.hash && bitsUsed == w.bits && hashUsed == w.hashes
              && matched == vMatch + w.txids && index == vnIndex + w.index
              && fBad == (old(fBad) || w.bad)
      decreases height
    {
      hide Extract, TreeWidth, First;
      matched, index := vMatch, vnIndex;
      if nBitsUsed >= |vBits| || height == 0 || !vBits[nBitsUsed] {
        ExtractLeaf(hash, nTransactions, vBits, vHash, height, pos, nBitsUsed, nHashUsed);
      }
      if nBitsUsed >= |vBits| {
        fBad := true;
        return NULL_HASH, nBitsUsed, nHashUsed, matched, index;
      }
      var fParentOfMatch := vBits[nBitsUsed];
      bitsUsed, hashUsed := nBitsUsed + 1, nHashUsed;
      if height == 0 || !fParentOfMatch {
        if nHashUsed >= |vHash| {
          fBad := true;
          return NULL_HASH, bitsUsed, hashUsed, matched, index;
        }
        node := vHash[nHashUsed];
        hashUsed := nHashUsed + 1;
        if height == 0 && fParentOfMatch {
          matched, index := matched + [node], index + [pos];
        }
      } else {
        var left, right;
        ExtractParent(hash, nTransactions, vBits, vHash, height, pos, nBitsUsed, nHashUsed, vMatch, vnIndex);
        left, bitsUsed, hashUsed, matched, index := TraverseAndExtract(height - 1, pos * 2, bitsUsed, hashUsed, matched,
          index);
        WidthMeansLeaf(nTransactions, height - 1, 2 * pos + 1);
        if pos * 2 + 1 < TreeWidth(nTransactions, height - 1) {
          right, bitsUsed, hashUsed, matched, index := TraverseAndExtract(height - 1, pos * 2 + 1, bitsUsed, hashUsed,
            matched, index);
          if right == left {
            fBad := true;
          }
        } else {
          right := left;
        }
        node := hash(left, right);
      }
    }

    /** vMatch is cleared first; vnIndex is not, so positions are appended to what the caller passes. */
    method ExtractMatches(vnIndex: seq<nat>) returns (root: Hash, vMatch: seq<Hash>, index: seq<nat>)
      modifies this`fBad
      ensures var (r, found, positions) := Matches(hash, nTransactions, vBits, vHash, old(fBad));
              root == r && vMatch == found && index == vnIndex + positions
    {
      vMatch, index := [], vnIndex;
      if nTransactions == 0 || nTransactions > MAX_BLOCK_BASE_SIZE / 60 || |vHash| > nTransactions
          || |vBits| < |vHash| {
        return NULL_HASH, vMatch, index;
      }
      var nHeight := 0;
      while TreeWidth(nTransactions, nHeight) > 1
        invariant TreeHeight(nTransactions, 0) == TreeHeight(nTransactions, nHeight)
        invariant fBad == old(fBad)
        decreases nTransactions - Pow2(nHeight)
      {
        WidthMeansLeaf(nTransactions, nHeight, 1);
        nHeight := nHeight + 1;
      }
      var nBitsUsed, nHashUsed;
      root, nBitsUsed, nHashUsed, vMatch, index := TraverseAndExtract(nHeight, 0, 0, 0, vMatch, index);
      if fBad || (nBitsUsed + 7) / 8 != (|vBits| + 7) / 8 || nHashUsed != |vHash| {
        root := NULL_HASH;
      }
    }
  }

  lemma NextMatch(vMatch: seq<bool>, lo: nat, p: nat)
    requires lo <= p < |vMatch|
    ensures AnyMatch(vMatch, lo, p + 1) <==> AnyMatch(vMatch, lo, p) || vMatch[p]
  {}

  /** Building, sending and reading a tree, end to end. */
  method SendAndRead(hash: PairHash, vTxid: seq<Hash>, vMatch: seq<bool>)
    returns (root: Hash, found: seq<Hash>, index: seq<nat>)
    requires Injective(hash) && Distinct(vTxid)
    requires 0 < |vTxid| == |vMatch| <= MAX_BLOCK_BASE_SIZE / 60
    ensures root == Root(hash, vTxid) && index == Selected(vMatch, 0, |vMatch|) && found == Pick(vTxid, index)
  {
    var sender := new PartialMerkleTree(hash, vTxid, vMatch);
    var bytes := Pack(sender.vBits);
    PaddedBits(sender.vBits, bytes);
    var reader := new PartialMerkleTree.FromWire(hash, sender.nTransactions, sender.vHash, bytes);
    HonestRoundTrip(hash, vTxid, vMatch, Unpack(bytes));
    root, found, index := reader.ExtractMatches([]);
  }
}
