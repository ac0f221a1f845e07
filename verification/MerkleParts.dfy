/** What a message with a partial Merkle tree is: the tree that its bits and hashes spell out.  ExtractMatches
    accepts exactly the messages that spell out such a tree, and reports what stands in it. */
module MerkleParts {
  import opened Arithmetic
  import opened MerkleBlock

  /** A part of a tree: an inner node of which only the hash is told, a leaf, or a node with one or two children. */
  datatype Part = Cut(top: Hash) | Leaf(txid: Hash, matched: bool) | Pair(left: Part, right: Part) | Only(child: Part)

  /** It has this height and this many leaves, all subtrees but the last being full. */
  predicate Covers(p: Part, height: nat, leaves: nat) {
    match p
    case Cut(_) => height > 0
    case Leaf(_, _) => height == 0
    case Pair(l, r) =>
      height > 0 && leaves > Pow2(height - 1) && Covers(l, height - 1, Pow2(height - 1))
      && Covers(r, height - 1, leaves - Pow2(height - 1))
    case Only(c) => height > 0 && leaves <= Pow2(height - 1) && Covers(c, height - 1, leaves)
  }

  function TopOf(hash: PairHash, p: Part): Hash {
    match p
    case Cut(top) => top
    case Leaf(txid, _) => txid
    case Pair(l, r) => hash(TopOf(hash, l), TopOf(hash, r))
    case Only(c) => hash(TopOf(hash, c), TopOf(hash, c))
  }

  /** No two children are the same, as no two transactions are. */
  predicate Differ(hash: PairHash, p: Part) {
    match p
    case Cut(_) => true
    case Leaf(_, _) => true
    case Pair(l, r) => TopOf(hash, l) != TopOf(hash, r) && Differ(hash, l) && Differ(hash, r)
    case Only(c) => Differ(hash, c)
  }

  /** A bit for every node, depth first: whether there is a match below it. */
  function Flags(p: Part): (s: seq<bool>)
    ensures s != []
  {
    match p
    case Cut(_) => [false]
    case Leaf(_, matched) => [matched]
    case Pair(l, r) => [true] + Flags(l) + Flags(r)
    case Only(c) => [true] + Flags(c)
  }

  /** A hash for every node that is not spelled out, and for every leaf. */
  function Told(p: Part): (s: seq<Hash>)
    ensures s != []
  {
    match p
    case Cut(top) => [top]
    case Leaf(txid, _) => [txid]
    case Pair(l, r) => Told(l) + Told(r)
    case Only(c) => Told(c)
  }

  /** The matched leaves ... */
  function Found(p: Part): seq<Hash> {
    match p
    case Cut(_) => []
    case Leaf(txid, matched) => if matched then [txid] else []
    case Pair(l, r) => Found(l) + Found(r)
    case Only(c) => Found(c)
  }

  /** ... and their positions, when the first leaf is at `first`. */
  function Places(p: Part, height: nat, first: nat): seq<nat> {
    match p
    case Cut(_) => []
    case Leaf(_, matched) => if matched then [first] else []
    case Pair(l, r) =>
      if height == 0 then [] else Places(l, height - 1, first) + Places(r, height - 1, first + Pow2(height - 1))
    case Only(c) => if height == 0 then [] else Places(c, height - 1, first)
  }

  // ---------------------------------------------------------------- one node

  lemma HoldsBoth<T>(s: seq<T>, i: nat, a: seq<T>, b: seq<T>)
    ensures Holds(s, i, a + b) <==> Holds(s, i, a) && Holds(s, i + |a|, b)
  {
    if Holds(s, i, a + b) {
      assert s[i..i + |a|] == (a + b)[..|a|] == a;
      assert s[i + |a|..i + |a| + |b|] == (a + b)[|a|..] == b;
    }
    if Holds(s, i, a) && Holds(s, i + |a|, b) {
      assert s[i..i + |a + b|] == s[i..i + |a|] + s[i + |a|..i + |a| + |b|];
    }
  }

  lemma HoldsOne<T>(s: seq<T>, i: nat, x: T)
    ensures Holds(s, i, [x]) <==> i < |s| && s[i] == x
  {
    if i < |s| {
      assert s[i..i + 1] == [s[i]];
    }
  }

  function Leaves(n: nat, height: nat, pos: nat): int { Last(n, height, pos) - First(height, pos) }

  lemma LeavesBelow(n: nat, height: nat, pos: nat)
    requires height > 0 && First(height, pos) < n
    ensures First(height - 1, 2 * pos) == First(height, pos)
    ensures First(height - 1, 2 * pos + 1) == First(height, pos) + Pow2(height - 1)
    ensures HasRight(n, height, pos) <==> First(height - 1, 2 * pos + 1) < n
    ensures HasRight(n, height, pos) <==> Leaves(n, height, pos) > Pow2(height - 1)
    ensures Leaves(n, height - 1, 2 * pos) ==
            if HasRight(n, height, pos) then Pow2(height - 1) else Leaves(n, height, pos)
    ensures HasRight(n, height, pos) ==>
              Leaves(n, height - 1, 2 * pos + 1) == Leaves(n, height, pos) - Pow2(height - 1)
  {
    hide First, Pow2;
    Children(height, pos);
  }

  /** What a traversal that starts at these places of the vectors finds, if a part is spelled out there. */
  ghost function Outcome(hash: PairHash, p: Part, height: nat, first: nat, b: nat, h: nat): Walk {
    Walk(false, TopOf(hash, p), b + |Flags(p)|, h + |Told(p)|, Found(p), Places(p, height, first))
  }

  /** One node of a traversal. */
  lemma NodeStep(hash: PairHash, n: nat, vBits: seq<bool>, vHash: seq<Hash>, height: nat, pos: nat, b: nat, h: nat)
    requires b < |vBits| && vBits[b] && height > 0
    ensures var l := Extract(hash, n, vBits, vHash, height - 1, 2 * pos, b + 1, h);
            var r := Extract(hash, n, vBits, vHash, height - 1, 2 * pos + 1, l.bits, l.hashes);
            Extract(hash, n, vBits, vHash, height, pos, b, h) ==
              if HasRight(n, height, pos)
                then Walk(l.bad || r.bad || r.hash == l.hash, hash(l.hash, r.hash), r.bits, r.hashes,
                          l.txids + r.txids, l.index + r.index)
                else Walk(l.bad, hash(l.hash, l.hash), l.bits, l.hashes, l.txids, l.index)
  {
    hide HasRight;
  }

  lemma {:induction false} PartIsRead(hash: PairHash, n: nat, vBits: seq<bool>, vHash: seq<Hash>, height: nat, pos: nat,
      b: nat, h: nat, p: Part)
    requires First(height, pos) < n && Leaves(n, height, pos) >= 0 && Covers(p, height, Leaves(n, height, pos))
    requires Differ(hash, p) && Holds(vBits, b, Flags(p)) && Holds(vHash, h, Told(p))
    ensures Extract(hash, n, vBits, vHash, height, pos, b, h) == Outcome(hash, p, height, First(height, pos), b, h)
    decreases p
  {
    hide First, Last, Leaves, HasRight, Pow2, Holds, Extract;
    match p
    case Cut(top) =>
      HoldsOne(vBits, b, false);
      HoldsOne(vHash, h, top);
      ExtractLeaf(hash, n, vBits, vHash, height, pos, b, h);
    case Leaf(txid, matched) =>
      HoldsOne(vBits, b, matched);
      HoldsOne(vHash, h, txid);
      BottomIs(pos);
      ExtractLeaf(hash, n, vBits, vHash, height, pos, b, h);
    case Pair(l, r) =>
      LeavesBelow(n, height, pos);
      PairHeld(vBits, vHash, b, h, l, r);
      PartIsRead(hash, n, vBits, vHash, height - 1, 2 * pos, b + 1, h, l);
      PartIsRead(hash, n, vBits, vHash, height - 1, 2 * pos + 1, b + 1 + |Flags(l)|, h + |Told(l)|, r);
      NodeStep(hash, n, vBits, vHash, height, pos, b, h);
      PairOutcome(hash, l, r, height, First(height, pos), b, h);
    case Only(c) =>
      LeavesBelow(n, height, pos);
      OnlyHeld(vBits, b, c);
      PartIsRead(hash, n, vBits, vHash, height - 1, 2 * pos, b + 1, h, c);
      NodeStep(hash, n, vBits, vHash, height, pos, b, h);
  }

  lemma PairOutcome(hash: PairHash, l: Part, r: Part, height: nat, first: nat, b: nat, h: nat)
    requires height > 0
    ensures var x := Outcome(hash, l, height - 1, first, b + 1, h);
            var y := Outcome(hash, r, height - 1, first + Pow2(height - 1), b + 1 + |Flags(l)|, h + |Told(l)|);
            Outcome(hash, Pair(l, r), height, first, b, h) ==
            Walk(false, hash(x.hash, y.hash), y.bits, y.hashes, x.txids + y.txids, x.index + y.index)
  {
    hide Pow2;
  }

  lemma PairHeld(vBits: seq<bool>, vHash: seq<Hash>, b: nat, h: nat, l: Part, r: Part)
    ensures Holds(vBits, b, Flags(Pair(l, r))) <==>
              b < |vBits| && vBits[b] && Holds(vBits, b + 1, Flags(l)) && Holds(vBits, b + 1 + |Flags(l)|, Flags(r))
    ensures Holds(vHash, h, Told(Pair(l, r))) <==> Holds(vHash, h, Told(l)) && Holds(vHash, h + |Told(l)|, Told(r))
  {
    hide Holds;
    HoldsBoth(vBits, b, [true] + Flags(l), Flags(r));
    HoldsBoth(vBits, b, [true], Flags(l));
    HoldsOne(vBits, b, true);
    HoldsBoth(vHash, h, Told(l), Told(r));
  }

  lemma OnlyHeld(vBits: seq<bool>, b: nat, c: Part)
    ensures Holds(vBits, b, Flags(Only(c))) <==> b < |vBits| && vBits[b] && Holds(vBits, b + 1, Flags(c))
  {
    hide Holds;
    HoldsBoth(vBits, b, [true], Flags(c));
    HoldsOne(vBits, b, true);
  }

  lemma BottomIs(pos: nat)
    ensures First(0, pos) == pos
  {
    assert Pow2(0) == 1;
  }

  /** Conversely, a traversal that goes well has found a part. */
  lemma {:induction false} ReadIsPart(hash: PairHash, n: nat, vBits: seq<bool>, vHash: seq<Hash>, height: nat, pos: nat,
      b: nat, h: nat) returns (p: Part)
    requires First(height, pos) < n && !Extract(hash, n, vBits, vHash, height, pos, b, h).bad
    ensures Leaves(n, height, pos) >= 0 && Covers(p, height, Leaves(n, height, pos)) && Differ(hash, p)
    ensures Holds(vBits, b, Flags(p)) && Holds(vHash, h, Told(p))
    ensures Extract(hash, n, vBits, vHash, height, pos, b, h) == Outcome(hash, p, height, First(height, pos), b, h)
    decreases height
  {
    hide First, Last, Leaves, HasRight, Pow2, Holds, Extract;
    SomeLeaves(n, height, pos);
    if b >= |vBits| || height == 0 || !vBits[b] {
      ExtractLeaf(hash, n, vBits, vHash, height, pos, b, h);
      HoldsOne(vBits, b, vBits[b]);
      HoldsOne(vHash, h, vHash[h]);
      BottomIs(pos);
      p := if height == 0 then Leaf(vHash[h], vBits[b]) else Cut(vHash[h]);
    } else {
      LeavesBelow(n, height, pos);
      NodeStep(hash, n, vBits, vHash, height, pos, b, h);
      var l := ReadIsPart(hash, n, vBits, vHash, height - 1, 2 * pos, b + 1, h);
      if HasRight(n, height, pos) {
        var r := ReadIsPart(hash, n, vBits, vHash, height - 1, 2 * pos + 1, b + 1 + |Flags(l)|, h + |Told(l)|);
        PairHeld(vBits, vHash, b, h, l, r);
        p := Pair(l, r);
      } else {
        OnlyHeld(vBits, b, l);
        p := Only(l);
      }
    }
  }

  lemma SomeLeaves(n: nat, height: nat, pos: nat)
    requires First(height, pos) < n
    ensures Leaves(n, height, pos) > 0
  {
  }

  // ---------------------------------------------------------------- a message

  /** Never more hashes than leaves, nor than bits. */
  lemma {:induction false} ToldFew(p: Part, height: nat, leaves: nat)
    requires Covers(p, height, leaves) && leaves > 0
    ensures |Told(p)| <= leaves && |Told(p)| <= |Flags(p)|
    decreases p
  {
    match p
    case Cut(_) =>
    case Leaf(_, _) =>
    case Pair(l, r) =>
      ToldFew(l, height - 1, Pow2(height - 1));
      ToldFew(r, height - 1, leaves - Pow2(height - 1));
    case Only(c) =>
      ToldFew(c, height - 1, leaves);
  }

  /** A message for n transactions spells out this tree, in the lowest height for them: all its bits and hashes, and
      nothing more than padding to a whole byte. */
  predicate Carries(hash: PairHash, n: nat, vBits: seq<bool>, vHash: seq<Hash>, height: nat, p: Part) {
    && 1 <= n <= 16666 && n <= Pow2(height) && (height > 0 ==> Pow2(height - 1) < n)
    && Covers(p, height, n) && Differ(hash, p)
    && vHash == Told(p) && Flags(p) <= vBits && (|Flags(p)| + 7) / 8 == (|vBits| + 7) / 8
  }

  /** The lowest height with room for n leaves. */
  lemma HeightIs(n: nat)
    requires n >= 1
    ensures n <= Pow2(TreeHeight(n, 0)) && (TreeHeight(n, 0) > 0 ==> Pow2(TreeHeight(n, 0) - 1) < n)
  {
    assert Pow2(0) == 1;
    HeightFrom(n, 0);
  }

  lemma {:induction false} HeightFrom(n: nat, h: nat)
    requires n >= 1 && (h > 0 ==> Pow2(h - 1) < n)
    ensures var r := TreeHeight(n, h); n <= Pow2(r) && (r > 0 ==> Pow2(r - 1) < n)
    decreases n - Pow2(h)
  {
    WidthMeansLeaf(n, h, 1);
    if TreeWidth(n, h) > 1 {
      HeightFrom(n, h + 1);
    }
  }

  lemma HeightUnique(n: nat, h: nat, k: nat)
    requires n <= Pow2(h) && (h > 0 ==> Pow2(h - 1) < n) && n <= Pow2(k) && (k > 0 ==> Pow2(k - 1) < n)
    ensures h == k
  {
    if h < k {
      Pow2Mono(h, k - 1);
    } else if k < h {
      Pow2Mono(k, h - 1);
    }
  }

  /** The whole tree. */
  lemma WholeTree(n: nat)
    requires n >= 1
    ensures First(TreeHeight(n, 0), 0) == 0 && Leaves(n, TreeHeight(n, 0), 0) == n
  {
    HeightIs(n);
  }

  /** A message that carries a tree is accepted: its top hash, the matched leaves and their positions are reported. */
  lemma CarriedIsRead(hash: PairHash, n: nat, vBits: seq<bool>, vHash: seq<Hash>, height: nat, p: Part)
    requires Carries(hash, n, vBits, vHash, height, p)
    ensures Matches(hash, n, vBits, vHash, false) == (TopOf(hash, p), Found(p), Places(p, height, 0))
  {
    hide Extract, Pow2, TreeHeight, First, Leaves, Covers, Differ, Flags, Stored, Found, Places;
    HeightIs(n);
    HeightUnique(n, height, TreeHeight(n, 0));
    WholeTree(n);
    ToldFew(p, height, n);
    assert Holds(vBits, 0, Flags(p)) && Holds(vHash, 0, Told(p));
    PartIsRead(hash, n, vBits, vHash, height, 0, 0, 0, p);
  }

  /** Conversely, a message from which any root comes out carries a tree. */
  lemma ReadIsCarried(hash: PairHash, n: nat, vBits: seq<bool>, vHash: seq<Hash>, bad: bool)
    returns (height: nat, p: Part)
    requires Matches(hash, n, vBits, vHash, bad).0 != 0
    ensures !bad && Carries(hash, n, vBits, vHash, height, p)
  {
    hide Extract, Pow2, TreeHeight, First, Leaves, Covers, Differ, Flags, Stored, Found, Places;
    HeightIs(n);
    WholeTree(n);
    height := TreeHeight(n, 0);
    p := ReadIsPart(hash, n, vBits, vHash, height, 0, 0, 0);
    assert vHash[0..|vHash|] == vHash;
  }
}
