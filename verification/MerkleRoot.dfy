/** The Merkle root of a list, level by level, and why the tree of CPartialMerkleTree has the same one. */
module MerkleRoot {
  import opened Arithmetic
  import opened MerkleBlock

  /** Neighbours are hashed together, an odd last one with itself. */
  function Paired(hash: PairHash, s: seq<Hash>): (r: seq<Hash>)
    ensures |r| == (|s| + 1) / 2
  {
    if s == [] then []
    else if |s| == 1 then [hash(s[0], s[0])]
    else [hash(s[0], s[1])] + Paired(hash, s[2..])
  }

  /** Pairing goes on until one hash is left. */
  function ListRoot(hash: PairHash, s: seq<Hash>): Hash
    requires s != []
    decreases |s|
  {
    if |s| == 1 then s[0] else ListRoot(hash, Paired(hash, s))
  }

  lemma {:induction false} PairedAt(hash: PairHash, s: seq<Hash>, k: nat)
    requires 2 * k < |s|
    ensures Paired(hash, s)[k] == hash(s[2 * k], if 2 * k + 1 < |s| then s[2 * k + 1] else s[2 * k])
  {
    if k > 0 {
      PairedAt(hash, s[2..], k - 1);
    }
  }

  /** The hashes of all nodes at a height. */
  function Level(hash: PairHash, txids: seq<Hash>, height: nat): (r: seq<Hash>)
    ensures |r| == TreeWidth(|txids|, height)
    ensures forall pos: nat ::
              pos < |r| ==> First(height, pos) < |txids| && r[pos] == CalcHash(hash, txids, height, pos)
  {
    hide CalcHash, First, TreeWidth;
    assert forall pos: nat :: pos < TreeWidth(|txids|, height) ==> First(height, pos) < |txids| by {
      forall pos: nat | pos < TreeWidth(|txids|, height)
        ensures First(height, pos) < |txids|
      {
        WidthMeansLeaf(|txids|, height, pos);
      }
    }
    seq(TreeWidth(|txids|, height), pos requires 0 <= pos < TreeWidth(|txids|, height) =>
      CalcHash(hash, txids, height, pos))
  }

  /** A node at the next height exists exactly when its left child does. */
  lemma LeftChild(n: nat, height: nat, pos: nat)
    ensures pos < TreeWidth(n, height + 1) <==> 2 * pos < TreeWidth(n, height)
    ensures HasRight(n, height + 1, pos) <==> 2 * pos + 1 < TreeWidth(n, height)
  {
    hide TreeWidth, First;
    Children(height + 1, pos);
    WidthMeansLeaf(n, height + 1, pos);
    WidthMeansLeaf(n, height, 2 * pos);
    WidthMeansLeaf(n, height, 2 * pos + 1);
  }

  lemma NextWidth(n: nat, height: nat)
    ensures TreeWidth(n, height + 1) == (TreeWidth(n, height) + 1) / 2
  {
    hide TreeWidth;
    var w := TreeWidth(n, height + 1);
    LeftChild(n, height, w);
    if w > 0 {
      LeftChild(n, height, w - 1);
    }
  }

  lemma NextLevel(hash: PairHash, txids: seq<Hash>, height: nat)
    ensures Paired(hash, Level(hash, txids, height)) == Level(hash, txids, height + 1)
  {
    hide TreeWidth, First, Paired, Level;
    var s, n := Level(hash, txids, height), |txids|;
    NextWidth(n, height);
    forall pos: nat | pos < TreeWidth(n, height + 1)
      ensures Paired(hash, s)[pos] == Level(hash, txids, height + 1)[pos]
    {
      LeftChild(n, height, pos);
      PairedAt(hash, s, pos);
      Children(height + 1, pos);
    }
  }

  lemma {:induction false} RootAbove(hash: PairHash, txids: seq<Hash>, height: nat)
    requires txids != [] && TreeWidth(|txids|, height) > 0
    ensures First(TreeHeight(|txids|, height), 0) < |txids|
    ensures ListRoot(hash, Level(hash, txids, height)) == CalcHash(hash, txids, TreeHeight(|txids|, height), 0)
    decreases |txids| - Pow2(height)
  {
    hide TreeWidth, Level, Paired, CalcHash;
    if TreeWidth(|txids|, height) > 1 {
      WidthMeansLeaf(|txids|, height, 1);
      NextLevel(hash, txids, height);
      NextWidth(|txids|, height);
      PowGrows(height);
      RootAbove(hash, txids, height + 1);
    }
  }

  lemma PowGrows(height: nat)
    ensures Pow2(height) < Pow2(height + 1)
  {
  }

  /** The root of the tree is that of the list. */
  lemma RootIsPairing(hash: PairHash, txids: seq<Hash>)
    requires txids != []
    ensures Root(hash, txids) == ListRoot(hash, txids)
  {
    hide Paired, ListRoot;
    LowestLevel(hash, txids);
    RootAbove(hash, txids, 0);
  }

  lemma LowestLevel(hash: PairHash, txids: seq<Hash>)
    ensures Level(hash, txids, 0) == txids && TreeWidth(|txids|, 0) == |txids|
  {
    assert Pow2(0) == 1;
  }
}
