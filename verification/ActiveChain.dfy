/** The skip pointers of the block index, and CChain: the active chain as a vector indexed by height. */
module ActiveChain {
  import opened Arithmetic
  import opened BlockTree

  // ---------------------------------------------------------------- skip heights

  /** n & (n - 1): the lowest one bit becomes zero. */
  function InvertLowestOne(n: nat): (r: nat)
    ensures n > 0 ==> r < n
    ensures n == 0 ==> r == 0
  {
    if n == 0 then 0
    else if n % 2 == 1 then n - 1
    else 2 * InvertLowestOne(n / 2)
  }

  /** A machine word with one more bit at its low end. */
  function Append(w: bv32, bit: bool): bv32 { if bit then (w << 1) | 1 else w << 1 }

  /** The machine word that holds n. */
  function Word(n: nat): bv32 { if n == 0 then 0 else Append(Word(n / 2), n % 2 == 1) }

  /** The operation of the code. */
  function Cleared(w: bv32): bv32 { w & (w - 1) }

  lemma ClearedBit(w: bv32)
    ensures Cleared(Append(w, true)) == Append(w, false)
    ensures Cleared(Append(w, false)) == Append(Cleared(w), false)
  {
  }

  lemma ZeroWord()
    ensures Cleared(0) == 0 && Append(0, false) == 0
  {
  }

  /** On machine words, the operation of the code is InvertLowestOne. */
  lemma {:induction false} InvertOnWords(n: nat)
    ensures Word(InvertLowestOne(n)) == Cleared(Word(n))
  {
    hide Cleared, Append;
    ZeroWord();
    if n > 0 {
      ClearedBit(Word(n / 2));
      assert n % 2 == 1 && n > 1 ==> (n - 1) / 2 == n / 2;
      if n % 2 == 0 {
        InvertOnWords(n / 2);
      }
    }
  }

  function GetSkipHeight(height: int): (r: nat)
    ensures height >= 1 ==> r < height
  {
    if height < 2 then 0
    else if height % 2 == 1 then InvertLowestOne(InvertLowestOne(height - 1)) + 1
    else InvertLowestOne(height)
  }

  /** On machine words: one bit is cleared of an even height, two of an odd one that keeps its lowest. */
  lemma SkipOnWords(height: nat)
    requires height >= 2
    ensures height % 2 == 0 ==> Word(GetSkipHeight(height)) == Cleared(Word(height))
    ensures height % 2 == 1 ==> Word(GetSkipHeight(height)) == LowestSet(Cleared(Cleared(Word(height - 1))))
  {
    hide Word, Cleared, LowestSet;
    if height % 2 == 0 {
      InvertOnWords(height);
    } else {
      var n := InvertLowestOne(InvertLowestOne(height - 1));
      InvertOnWords(height - 1);
      InvertOnWords(InvertLowestOne(height - 1));
      InvertIsEven(height - 1);
      InvertIsEven(InvertLowestOne(height - 1));
      OneMoreBit(n);
    }
  }

  lemma {:induction false} InvertIsEven(n: nat)
    requires n % 2 == 0
    ensures InvertLowestOne(n) % 2 == 0
  {
  }

  lemma OneMoreBit(n: nat)
    requires n % 2 == 0
    ensures Word(n + 1) == LowestSet(Word(n))
  {
    hide Append, LowestSet;
    assert (n + 1) / 2 == n / 2;
    ZeroWord();
    BitSet(Word(n / 2));
  }

  function LowestSet(w: bv32): bv32 { w | 1 }

  lemma BitSet(w: bv32)
    ensures Append(w, true) == LowestSet(Append(w, false))
  {
  }

  // ---------------------------------------------------------------- ancestors

  lemma {:induction false} AncestorTwice(t: Tree, genesis: Id, b: Id, high: nat, low: nat)
    requires TreeOk(t, genesis) && b in t && low <= high <= t[b].height
    ensures Ancestor(t, Ancestor(t, b, high), low) == Ancestor(t, b, low)
    decreases Height(t, b)
  {
    if high < t[b].height {
      assert Up(t, b).At?;
      AncestorTwice(t, genesis, Up(t, b).id, high, low);
    }
  }

  /** Skip pointers lead to the ancestor at the skip height. */
  ghost predicate SkipsOk(t: Tree, skips: map<Id, Link>) {
    forall b {:trigger b in skips} :: b in skips ==>
      b in t && (skips[b].At? ==> t[b].height >= 1 && skips[b].id == Ancestor(t, b, GetSkipHeight(t[b].height)))
  }

  /** The block index as far as ancestors are concerned. */
  class SkipIndex {
    const genesis: Id
    var blocks: Tree
    var skips: map<Id, Link>

    ghost predicate Valid()
      reads this
    {
      TreeOk(blocks, genesis) && SkipsOk(blocks, skips)
    }

    constructor (genesis: Id, blocks: Tree)
      requires TreeOk(blocks, genesis)
      ensures Valid() && this.genesis == genesis && this.blocks == blocks && skips == map[]
    {
      this.genesis, this.blocks, skips := genesis, blocks, map[];
    }

    /** Skipping back is as good as walking back one parent at a time. */
    method GetAncestor(b: Id, height: int) returns (a: Link)
      requires Valid() && b in blocks
      ensures a == if 0 <= height <= blocks[b].height then At(Ancestor(blocks, b, height)) else NoBlock
    {
      hide SkipsOk, TreeOk, Ancestor, GetSkipHeight;
      if height > blocks[b].height || height < 0 {
        return NoBlock;
      }
      var pindexWalk := b;
      var heightWalk := blocks[b].height;
      while heightWalk > height
        invariant pindexWalk in blocks && blocks[pindexWalk].height == heightWalk >= height
        invariant Ancestor(blocks, pindexWalk, height) == Ancestor(blocks, b, height)
      {
        var heightSkip := GetSkipHeight(heightWalk);
        var heightSkipPrev := GetSkipHeight(heightWalk - 1);
        SkipFrom(blocks, genesis, skips, pindexWalk, height);
        if pindexWalk in skips && skips[pindexWalk] != NoBlock &&
           (heightSkip == height
             || (heightSkip > height && !(heightSkipPrev < heightSkip - 2 && heightSkipPrev >= height))) {
          pindexWalk := skips[pindexWalk].id;
          heightWalk := heightSkip;
        } else {
          pindexWalk := blocks[pindexWalk].prev.id;
          heightWalk := heightWalk - 1;
        }
      }
      AncestorSelf(blocks, pindexWalk);
      return At(pindexWalk);
    }

    method BuildSkip(b: Id)
      requires Valid() && b in blocks
      modifies this`skips
      ensures Valid()
      ensures blocks[b].prev.At? ==> skips == old(skips)[b := At(Ancestor(blocks, b, GetSkipHeight(blocks[b].height)))]
      ensures !blocks[b].prev.At? ==> skips == old(skips)[b := NoBlock]
    {
      var pskip := NoBlock;
      if blocks[b].prev.At? {
        pskip := GetAncestor(blocks[b].prev.id, GetSkipHeight(blocks[b].height));
      }
      skips := skips[b := pskip];
    }

    /** A block is added on top of a known one and gets its skip pointer. */
    method AddBlock(b: Id, block: Block)
      requires Valid() && b !in blocks && TreeOk(blocks[b := block], genesis)
      modifies this
      ensures Valid() && blocks == old(blocks)[b := block] && b in skips && skips.Keys == old(skips).Keys + {b}
    {
      GrownSkips(blocks, genesis, skips, b, block);
      blocks := blocks[b := block];
      BuildSkip(b);
    }
  }

  lemma {:induction false} GrownAncestor(t: Tree, genesis: Id, b: Id, block: Block, x: Id, height: nat)
    requires TreeOk(t, genesis) && b !in t && x in t
    ensures Ancestor(t[b := block], x, height) == Ancestor(t, x, height)
    decreases Height(t, x)
  {
    assert Up(t[b := block], x) == Up(t, x);
    if Up(t, x).At? {
      GrownAncestor(t, genesis, b, block, Up(t, x).id, height);
    }
  }

  lemma GrownSkips(t: Tree, genesis: Id, skips: map<Id, Link>, b: Id, block: Block)
    requires TreeOk(t, genesis) && SkipsOk(t, skips) && b !in t
    ensures SkipsOk(t[b := block], skips)
  {
    hide Ancestor, GetSkipHeight, TreeOk;
    forall x | x in skips && skips[x].At?
      ensures skips[x].id == Ancestor(t[b := block], x, GetSkipHeight(t[x].height))
    {
      GrownAncestor(t, genesis, b, block, x, GetSkipHeight(t[x].height));
    }
  }

  lemma AncestorSelf(t: Tree, b: Id)
    requires b in t
    ensures Ancestor(t, b, t[b].height) == b
  {
  }

  lemma SkipFrom(t: Tree, genesis: Id, skips: map<Id, Link>, b: Id, height: nat)
    requires TreeOk(t, genesis) && SkipsOk(t, skips) && b in t && height < t[b].height
    ensures t[b].prev.At? && t[b].prev.id in t && t[t[b].prev.id].height == t[b].height - 1
    ensures Ancestor(t, t[b].prev.id, height) == Ancestor(t, b, height)
    ensures b in skips && skips[b].At? && GetSkipHeight(t[b].height) >= height ==>
              var s := skips[b].id;
              s in t && t[s].height == GetSkipHeight(t[b].height) < t[b].height
                && Ancestor(t, s, height) == Ancestor(t, b, height)
  {
    hide GetSkipHeight;
    if b in skips && skips[b].At? && GetSkipHeight(t[b].height) >= height {
      AncestorAt(t, genesis, b, GetSkipHeight(t[b].height));
      AncestorTwice(t, genesis, b, GetSkipHeight(t[b].height), height);
    }
  }

  // ---------------------------------------------------------------- the active chain

  /** The path from the root to `b`, by height. */
  function PathTo(t: Tree, b: Link): seq<Link> {
    if b.At? then seq(Height(t, b.id) + 1, i requires 0 <= i => At(Ancestor(t, b.id, i))) else []
  }

  /** The vector is the path to its last element. */
  ghost predicate IsPath(t: Tree, v: seq<Link>) {
    v == [] || (v[|v| - 1].At? && v[|v| - 1].id in t && v == PathTo(t, v[|v| - 1]))
  }

  /** vChain with unset entries (null pointers) allowed while it is being rewritten. */
  function Resized(v: seq<Link>, n: nat): (r: seq<Link>)
    ensures |r| == n
    ensures forall i :: 0 <= i < n ==> r[i] == if i < |v| then v[i] else NoBlock
  {
    if n <= |v| then v[..n] else v + seq(n - |v|, _ => NoBlock)
  }

  /** Where the vector agrees with a path, it agrees below as well. */
  lemma AgreesBelow(t: Tree, genesis: Id, v: seq<Link>, b: Id, h: nat, i: nat)
    requires TreeOk(t, genesis) && IsPath(t, v) && b in t && i <= h <= t[b].height && h < |v|
             && v[h] == At(Ancestor(t, b, h))
    ensures v[i] == At(Ancestor(t, b, i))
  {
    hide TreeOk, Ancestor;
    var tip := v[|v| - 1].id;
    AncestorTwice(t, genesis, tip, h, i);
    AncestorTwice(t, genesis, b, h, i);
  }

  class Chain {
    var vChain: seq<Link>

    constructor ()
      ensures vChain == []
    {
      vChain := [];
    }

    /** Rewriting stops at the first entry that is right already; the result is the whole path. */
    method SetTip(t: Tree, ghost genesis: Id, pindex: Link)
      requires TreeOk(t, genesis) && IsPath(t, vChain) && (pindex.At? ==> pindex.id in t)
      modifies this
      ensures vChain == PathTo(t, pindex) && IsPath(t, vChain)
    {
      hide TreeOk, Ancestor, IsPath;
      if pindex == NoBlock {
        vChain := [];
        EmptyPath(t);
        return;
      }
      var b := pindex.id;
      ghost var was := vChain;
      vChain := Resized(vChain, t[b].height + 1);
      var p := pindex;
      ghost var h: int := t[b].height;
      AncestorSelf(t, b);
      while p.At? && vChain[t[p.id].height] != p
        invariant -1 <= h <= t[b].height && |vChain| == t[b].height + 1
        invariant if h == -1 then p == NoBlock else p == At(Ancestor(t, b, h)) && p.id in t && t[p.id].height == h
        invariant forall i :: h < i <= t[b].height ==> vChain[i] == At(Ancestor(t, b, i))
        invariant forall i :: 0 <= i <= h ==> vChain[i] == Resized(was, t[b].height + 1)[i]
        decreases h
      {
        AncestorAt(t, genesis, b, h);
        if h > 0 {
          AncestorAt(t, genesis, b, h - 1);
        }
        vChain := vChain[t[p.id].height := p];
        p := t[p.id].prev;
        h := h - 1;
      }
      forall i: nat | i <= t[b].height
        ensures vChain[i] == At(Ancestor(t, b, i))
      {
        if i <= h {
          AgreesBelow(t, genesis, was, b, h, i);
        }
      }
      PathDone(t, b, vChain);
    }

    /** Hashes from a block, or else the tip, back to the root: at first one by one, then in steps that
        double.  Blocks of the chain are looked up there, others through their ancestors. */
    method GetLocator(t: Tree, ghost genesis: Id, pindex_: Link) returns (vHave: seq<Id>)
      requires TreeOk(t, genesis) && IsPath(t, vChain) && (pindex_.At? ==> pindex_.id in t)
      ensures pindex_ == NoBlock && vChain == [] ==> vHave == []
      ensures pindex_.At? || vChain != [] ==>
                && |vHave| > 0 && At(vHave[0]) == (if pindex_.At? then pindex_ else vChain[|vChain| - 1])
                && vHave[0] in t && vHave[|vHave| - 1] == genesis
                && (forall i ::
                     0 <= i < |vHave| ==> vHave[i] == Ancestor(t, vHave[0], Minus(t[vHave[0]].height, Depth(i))))
                && (forall i :: 0 <= i < |vHave| - 1 ==> Depth(i) < t[vHave[0]].height)
    {
      hide TreeOk, Ancestor, IsPath, Depth;
      var nStep := 1;
      vHave := [];
      var start := StartOf(vChain, pindex_);
      StartKnown(t, vChain, pindex_);
      if start == NoBlock {
        return;
      }
      var b := start.id;
      var pindex := b;
      AncestorSelf(t, b);
      while true
        invariant pindex in t && pindex == Ancestor(t, b, t[pindex].height) && t[pindex].height <= t[b].height
        invariant vHave == [] ==> pindex == b
        invariant forall i :: 0 <= i < |vHave| ==> vHave[i] in t && vHave[i] == Ancestor(t, b, t[vHave[i]].height)
        invariant forall i :: 0 <= i < |vHave| - 1 ==> t[vHave[i + 1]].height == Back(t[vHave[i]].height, i)
        invariant forall i :: 0 <= i < |vHave| - 1 ==> t[vHave[i]].height > 0
        invariant vHave != [] ==> vHave[0] == b
        invariant vHave != [] ==>
                    var last := t[vHave[|vHave| - 1]].height; t[pindex].height == Back(last, |vHave| - 1) < last
        invariant nStep == StepAfter(|vHave|)
        decreases t[pindex].height
      {
        vHave := vHave + [pindex];
        if t[pindex].height == 0 {
          break;
        }
        var nHeight := if t[pindex].height - nStep > 0 then t[pindex].height - nStep else 0;
        AncestorAt(t, genesis, b, nHeight);
        AncestorTwice(t, genesis, b, t[pindex].height, nHeight);
        if t[pindex].height < |vChain| && vChain[t[pindex].height] == At(pindex) {
          ChainHolds(t, genesis, vChain, pindex, nHeight);
          pindex := vChain[nHeight].id;
        } else {
          pindex := Ancestor(t, pindex, nHeight);
        }
        if |vHave| > 10 {
          nStep := nStep * 2;
        }
      }
      AncestorAt(t, genesis, b, 0);
      LocatorIs(t, b, vHave);
    }
  }

  lemma LocatorIs(t: Tree, b: Id, vHave: seq<Id>)
    requires b in t && vHave != [] && vHave[0] == b
    requires forall i :: 0 <= i < |vHave| ==> vHave[i] in t && vHave[i] == Ancestor(t, b, t[vHave[i]].height)
    requires forall i :: 0 <= i < |vHave| - 1 ==> t[vHave[i + 1]].height == Back(t[vHave[i]].height, i)
    requires forall i :: 0 <= i < |vHave| - 1 ==> t[vHave[i]].height > 0
    ensures forall i :: 0 <= i < |vHave| ==> vHave[i] == Ancestor(t, b, Minus(t[b].height, Depth(i)))
    ensures forall i :: 0 <= i < |vHave| - 1 ==> Depth(i) < t[b].height
  {
    hide Ancestor, Depth, Back;
    var heights := seq(|vHave|, i requires 0 <= i < |vHave| => t[vHave[i]].height);
    forall i | 0 <= i < |vHave|
      ensures t[vHave[i]].height == Minus(t[b].height, Depth(i))
    {
      HeightsAre(heights, i);
    }
  }

  /** Down to zero. */
  function Minus(a: nat, b: nat): nat { if a > b then a - b else 0 }

  /** Where a locator starts. */
  function StartOf(v: seq<Link>, pindex: Link): Link {
    if pindex.At? then pindex else if v == [] then NoBlock else v[|v| - 1]
  }

  lemma StartKnown(t: Tree, v: seq<Link>, pindex: Link)
    requires IsPath(t, v) && (pindex.At? ==> pindex.id in t)
    ensures StartOf(v, pindex).At? ==> StartOf(v, pindex).id in t
    ensures v != [] ==> v[|v| - 1].At?
  {
  }

  /** Below a block of the chain, the chain holds its ancestors. */
  lemma ChainHolds(t: Tree, genesis: Id, v: seq<Link>, b: Id, low: nat)
    requires TreeOk(t, genesis) && IsPath(t, v) && b in t && low <= t[b].height < |v| && v[t[b].height] == At(b)
    ensures v[low] == At(Ancestor(t, b, low))
  {
    hide TreeOk;
    var tip := v[|v| - 1].id;
    AncestorSelf(t, tip);
    AncestorTwice(t, genesis, tip, t[b].height, low);
  }

  lemma EmptyPath(t: Tree)
    ensures IsPath(t, []) && PathTo(t, NoBlock) == []
  {
  }

  lemma PathDone(t: Tree, b: Id, v: seq<Link>)
    requires b in t && |v| == t[b].height + 1 && forall i :: 0 <= i <= t[b].height ==> v[i] == At(Ancestor(t, b, i))
    ensures v == PathTo(t, At(b)) && IsPath(t, v)
  {
    AncestorSelf(t, b);
  }

  // ---------------------------------------------------------------- locators

  /** The step taken after `n` entries were written. */
  function StepAfter(n: nat): (s: nat)
    ensures s >= 1
  {
    if n <= 10 then 1 else 2 * StepAfter(n - 1)
  }

  /** How far below the first one entry i is: one by one at first, then in steps that double. */
  function Depth(i: nat): nat { if i <= 10 then i else 9 + Pow2(i - 10) }

  lemma {:induction false} StepIs(n: nat)
    ensures StepAfter(n) == if n <= 10 then 1 else Pow2(n - 10)
    ensures Depth(n + 1) == Depth(n) + StepAfter(n)
  {
    assert Pow2(1) == 2;
    if n > 10 {
      StepIs(n - 1);
      Pow2Next(n - 10);
      Pow2Next(n - 11);
    }
  }

  lemma {:induction false} HeightsAre(heights: seq<nat>, i: nat)
    requires i < |heights| && forall k :: 0 <= k < |heights| - 1 ==> heights[k + 1] == Back(heights[k], k)
    ensures heights[i] == Minus(heights[0], Depth(i))
  {
    assert Depth(0) == 0;
    hide StepAfter, Depth;
    if i > 0 {
      HeightsAre(heights, i - 1);
      StepIs(i - 1);
    }
  }

  /** The height of entry i + 1, given that of entry i. */
  function Back(height: nat, i: nat): nat {
    if height > StepAfter(i) then height - StepAfter(i) else 0
  }
}
