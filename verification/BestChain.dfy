/** Which chain is active: linking received blocks into the tree, choosing the best candidate, and
    switching to it.  Block validity is a fixed predicate; block files are never pruned. */
module BestChain {
  import opened BlockTree

  // ---------------------------------------------------------------- linking

  /** What nChainTx must be, given the parent's. */
  function Linked(t: Tree, b: Id): nat
    requires b in t
  {
    if !t[b].haveData then 0
    else match t[b].prev
      case NoBlock => t[b].nTx
      case At(p) => if p in t && t[p].nChainTx != 0 then t[p].nChainTx + t[b].nTx else 0
  }

  ghost predicate CountersOk(t: Tree, pending: set<Id>) {
    forall b {:trigger b in t} :: b in t ==>
      && (t[b].haveData <==> t[b].nTx > 0)
      && (t[b].nChainTx == 0 ==> t[b].sequenceId == 0)
      && (t[b].haveData && Failed(t[b]) ==> t[b].nChainTx != 0)
      && (if b in pending then t[b].nChainTx == 0 && Linked(t, b) != 0 else t[b].nChainTx == Linked(t, b))
  }

  /** mapBlocksUnlinked files every received block under its parent while that parent is not linked. */
  ghost predicate UnlinkedOk(t: Tree, unlinked: set<(Id, Id)>) {
    && (forall e {:trigger e in unlinked} :: e in unlinked ==>
          && e.0 in t && e.1 in t && t[e.0].nChainTx == 0
          && t[e.1].haveData && t[e.1].prev == At(e.0))
    && (forall c {:trigger c in t} :: c in t && t[c].haveData && t[c].prev.At? && t[c].prev.id in t
          && t[t[c].prev.id].nChainTx == 0 && !Failed(t[t[c].prev.id])
          ==> (t[c].prev.id, c) in unlinked)
  }

  /** The received children of a block that are filed under it. */
  function Waiting(unlinked: set<(Id, Id)>, p: Id): set<Id> { set e | e in unlinked && e.0 == p :: e.1 }

  function NotUnder(unlinked: set<(Id, Id)>, p: Id): set<(Id, Id)> { set e | e in unlinked && e.0 != p }

  lemma WaitingIs(unlinked: set<(Id, Id)>, p: Id, c: Id)
    ensures c in Waiting(unlinked, p) <==> (p, c) in unlinked
  {
    if (p, c) in unlinked {
      var e := (p, c);
      assert e in unlinked && e.0 == p;
    }
  }

  /** A pending block gets its counters. */
  function Counted(t: Tree, q: Id, seqId: nat): Tree
    requires q in t
  {
    t[q := t[q].(nChainTx := Linked(t, q), sequenceId := seqId)]
  }

  lemma CountedCounters(t: Tree, genesis: Id, unlinked: set<(Id, Id)>, pending: set<Id>, q: Id, seqId: nat)
    requires TreeOk(t, genesis) && CountersOk(t, pending) && UnlinkedOk(t, unlinked) && q in pending && q in t
    ensures CountersOk(Counted(t, q, seqId), pending - {q} + Waiting(unlinked, q))
  {
    var t' := Counted(t, q, seqId);
    forall b | b in t'
      ensures t'[b].haveData <==> t'[b].nTx > 0
      ensures t'[b].nChainTx == 0 ==> t'[b].sequenceId == 0
      ensures t'[b].haveData && Failed(t'[b]) ==> t'[b].nChainTx != 0
      ensures if b in pending - {q} + Waiting(unlinked, q) then t'[b].nChainTx == 0 && Linked(t', b) != 0
              else t'[b].nChainTx == Linked(t', b)
    {
      assert b in t;
      WaitingIs(unlinked, q, b);
      if t[b].prev == At(q) {
        assert t[q].nChainTx == 0;
        if t[b].haveData {
          assert !Failed(t[q]);
        }
      }
      if (q, b) in unlinked {
        assert t[b].prev == At(q);
      }
    }
  }

  lemma CountedUnlinked(t: Tree, genesis: Id, unlinked: set<(Id, Id)>, pending: set<Id>, q: Id, seqId: nat)
    requires TreeOk(t, genesis) && CountersOk(t, pending) && UnlinkedOk(t, unlinked) && q in pending && q in t
    ensures UnlinkedOk(Counted(t, q, seqId), NotUnder(unlinked, q))
  {
    var t' := Counted(t, q, seqId);
    forall c | c in t' && t'[c].haveData && t'[c].prev.At? && t'[c].prev.id in t'
                 && t'[t'[c].prev.id].nChainTx == 0 && !Failed(t'[t'[c].prev.id])
      ensures (t'[c].prev.id, c) in NotUnder(unlinked, q)
    {
      assert c in t;
      assert (t[c].prev.id, c) in unlinked;
    }
  }

  /** nChainTx is exact: the number of transactions up to the block if everything was received, else zero. */
  lemma {:induction false} ChainTxIsExact(t: Tree, genesis: Id, b: Id)
    requires TreeOk(t, genesis) && CountersOk(t, {}) && b in t
    ensures t[b].nChainTx == if AllReceived(t, b) then TxCount(t, b) else 0
    ensures AllReceived(t, b) <==> t[b].nChainTx != 0
    decreases Height(t, b)
  {
    if Up(t, b).At? {
      ChainTxIsExact(t, genesis, Up(t, b).id);
    } else {
      assert t[b].prev.NoBlock?;
    }
  }

  /** Without failed blocks a received block is filed under its parent exactly while the parent is not linked. */
  lemma UnlinkedIsExact(t: Tree, genesis: Id, unlinked: set<(Id, Id)>, p: Id, c: Id)
    requires TreeOk(t, genesis) && CountersOk(t, {}) && UnlinkedOk(t, unlinked) && forall b :: b in t ==> !Failed(t[b])
    ensures (p, c) in unlinked <==> c in t && t[c].haveData && t[c].prev == At(p) && !AllReceived(t, p)
  {
    if (p, c) in unlinked {
      ChainTxIsExact(t, genesis, p);
    } else if c in t && t[c].haveData && t[c].prev == At(p) {
      ChainTxIsExact(t, genesis, p);
    }
  }

  /** The same blocks have been received. */
  ghost predicate SameData(t: Tree, t': Tree) {
    SameShape(t, t')
      && forall b {:trigger b in t} :: b in t ==> t'[b].haveData == t[b].haveData && t'[b].nTx == t[b].nTx
  }

  lemma DataThere(t: Tree, t': Tree, b: Id)
    requires SameData(t, t') && b in t
    ensures b in t' && t'[b].haveData == t[b].haveData && t'[b].nTx == t[b].nTx
  {
  }

  lemma {:induction false} SameDataSameCounts(t: Tree, t': Tree, b: Id)
    requires SameData(t, t')
    ensures AllReceived(t', b) == AllReceived(t, b) && TxCount(t', b) == TxCount(t, b)
    decreases Height(t, b)
  {
    ShapeUp(t, t', b);
    if b in t && Up(t, b).At? {
      SameDataSameCounts(t, t', Up(t, b).id);
    }
  }

  /** The order in which blocks arrived leaves no trace in nChainTx and mapBlocksUnlinked. */
  lemma OrderIsForgotten(t: Tree, t': Tree, genesis: Id, unlinked: set<(Id, Id)>, unlinked': set<(Id, Id)>)
    requires TreeOk(t, genesis) && CountersOk(t, {}) && UnlinkedOk(t, unlinked)
    requires TreeOk(t', genesis) && CountersOk(t', {}) && UnlinkedOk(t', unlinked')
    requires SameData(t, t') && forall b :: b in t ==> !Failed(t[b]) && !Failed(t'[b])
    ensures forall b :: b in t ==> t'[b].nChainTx == t[b].nChainTx
    ensures unlinked' == unlinked
  {
    hide UnlinkedOk;
    forall b | b in t
      ensures t'[b].nChainTx == t[b].nChainTx
    {
      SameDataSameCounts(t, t', b);
      ChainTxIsExact(t, genesis, b);
      ChainTxIsExact(t', genesis, b);
    }
    forall p: Id, c: Id
      ensures (p, c) in unlinked' <==> (p, c) in unlinked
    {
      SameDataSameCounts(t, t', p);
      UnlinkedIsExact(t, genesis, unlinked, p, c);
      UnlinkedIsExact(t', genesis, unlinked', p, c);
      assert c in t ==> t'[c].prev == t[c].prev && t'[c].haveData == t[c].haveData;
    }
    assert forall e :: e in unlinked' <==> (e.0, e.1) in unlinked;
  }

  // ---------------------------------------------------------------- chains, flags and candidates

  /** vChain is the path from the root to the tip, all of it received and valid. */
  ghost predicate ChainOk(t: Tree, valid: Id -> bool, chain: seq<Id>) {
    forall i :: 0 <= i < |chain| ==>
      && chain[i] in t && t[chain[i]].height == i && t[chain[i]].nChainTx != 0 && AllValid(t, valid, chain[i])
      && t[chain[i]].prev == if i == 0 then NoBlock else At(chain[i - 1])
  }

  /** Only invalid blocks are marked as such, and other failed flags are set below them only. */
  ghost predicate FlagsOk(t: Tree, valid: Id -> bool) {
    FlagsRooted(t) && forall b {:trigger b in t} :: b in t && t[b].failedValid ==> !valid(b)
  }

  lemma {:induction false} ValidIsUninvalidated(t: Tree, valid: Id -> bool, b: Id)
    requires FlagsOk(t, valid) && AllValid(t, valid, b)
    ensures !Invalidated(t, b)
    decreases Height(t, b)
  {
    hide FlagsRooted;
    if Up(t, b).At? {
      ValidIsUninvalidated(t, valid, Up(t, b).id);
    }
  }

  lemma ValidIsClean(t: Tree, valid: Id -> bool, b: Id)
    requires FlagsOk(t, valid) && AllValid(t, valid, b)
    ensures Clean(t, b)
  {
    hide FlagsRooted;
    ValidIsUninvalidated(t, valid, b);
    CleanIsUninvalidated(t, b);
  }

  /** Setting more flags of the first kind, and flags of the second kind below them, keeps them in order. */
  lemma RootedStays(t: Tree, t': Tree)
    requires FlagsRooted(t) && SameShape(t, t') && forall x :: x in t && t[x].failedValid ==> t'[x].failedValid
    requires forall x :: x in t && Failed(t'[x]) ==> Failed(t[x]) || Invalidated(t', x)
    ensures FlagsRooted(t')
  {
    hide SameShape, Invalidated;
    forall b | b in t' && Failed(t'[b])
      ensures Invalidated(t', b)
    {
      ShapeUp(t, t', b);
      if Failed(t[b]) {
        InvalidatedGrows(t, t', b);
      }
    }
  }

  /** Everything was received up to this block, and nothing on the way is known to have failed. */
  predicate Good(t: Tree, b: Id) { b in t && t[b].nChainTx != 0 && Clean(t, b) }

  function Tip(chain: seq<Id>): Id
    requires chain != []
  {
    chain[|chain| - 1]
  }

  /** No tip was ever better than `best`, which is still a candidate; a good block that is no
      candidate any more sorts below it. */
  ghost predicate CandidatesOk(t: Tree, valid: Id -> bool, candidates: set<Id>, chain: seq<Id>, best: Link) {
    && (forall c {:trigger c in candidates} :: c in candidates ==> c in t && t[c].nChainTx != 0)
    && match best
       case NoBlock => chain == [] && forall b {:trigger Good(t, b)} :: Good(t, b) ==> b in candidates
       case At(x) =>
         && x in candidates && AllValid(t, valid, x)
         && (chain != [] ==> Tip(chain) in t && !Less(t, x, Tip(chain)))
         && forall b {:trigger Good(t, b)} :: Good(t, b) ==> b in candidates || Less(t, b, x)
  }

  /** At least as high as the tip. */
  predicate NotBelowTip(t: Tree, b: Id, chain: seq<Id>)
    requires b in t && forall i :: 0 <= i < |chain| ==> chain[i] in t
  {
    chain == [] || !Less(t, b, Tip(chain))
  }

  lemma SameBlockSameOrder(t: Tree, t': Tree, a: Id, b: Id)
    requires a in t && b in t && a in t' && b in t'
    requires t'[a].chainWork == t[a].chainWork && t'[a].sequenceId == t[a].sequenceId
    requires t'[b].chainWork == t[b].chainWork && t'[b].sequenceId == t[b].sequenceId
    ensures Less(t', a, b) == Less(t, a, b)
  {
  }

  /** Linking a block changes no flags. */
  lemma {:induction false} CountedClean(t: Tree, q: Id, seqId: nat, b: Id)
    requires q in t
    ensures Clean(Counted(t, q, seqId), b) == Clean(t, b)
    decreases Height(t, b)
  {
    var t' := Counted(t, q, seqId);
    ShapeUp(t, t', b);
    if Up(t, b).At? {
      CountedClean(t, q, seqId, Up(t, b).id);
    }
  }

  lemma CountedChain(t: Tree, valid: Id -> bool, chain: seq<Id>, q: Id, seqId: nat)
    requires q in t && t[q].nChainTx == 0 && ChainOk(t, valid, chain) && FlagsOk(t, valid)
    ensures ChainOk(Counted(t, q, seqId), valid, chain) && FlagsOk(Counted(t, q, seqId), valid)
  {
    hide AllValid, FlagsRooted;
    var t' := Counted(t, q, seqId);
    forall b
      ensures AllValid(t', valid, b) == AllValid(t, valid, b)
    {
      ShapeValid(t, t', valid, b);
    }
    RootedStays(t, t');
  }

  /** A newly linked block becomes a candidate unless it sorts below the tip. */
  lemma CountedCandidates(t: Tree, valid: Id -> bool, candidates: set<Id>, chain: seq<Id>, best: Link, q: Id,
      seqId: nat)
    requires q in t && t[q].nChainTx == 0 && Linked(t, q) != 0
    requires ChainOk(t, valid, chain) && CandidatesOk(t, valid, candidates, chain, best)
    ensures var t' := Counted(t, q, seqId);
            && (forall i :: 0 <= i < |chain| ==> chain[i] in t')
            && CandidatesOk(t', valid, if NotBelowTip(t', q, chain) then candidates + {q} else candidates, chain, best)
  {
    hide AllValid, Less, Clean, Linked;
    var t' := Counted(t, q, seqId);
    var candidates' := if NotBelowTip(t', q, chain) then candidates + {q} else candidates;
    if best.At? {
      var x := best.id;
      assert x in candidates && x != q;
      ShapeValid(t, t', valid, x);
      if chain != [] {
        SameBlockSameOrder(t, t', x, Tip(chain));
      }
      forall b | Good(t', b)
        ensures b in candidates' || Less(t', b, x)
      {
        CountedClean(t, q, seqId, b);
        if b != q {
          assert Good(t, b);
          SameBlockSameOrder(t, t', b, x);
        } else if q !in candidates' {
          LessIsStrictTotal(t', q, Tip(chain), x);
        }
      }
    } else {
      forall b | Good(t', b)
        ensures b in candidates'
      {
        CountedClean(t, q, seqId, b);
        assert b != q ==> Good(t, b);
      }
    }
  }

  // ---------------------------------------------------------------- marking failures

  /** Only failed flags were set. */
  ghost predicate OnlyFlags(t: Tree, t': Tree) {
    t'.Keys == t.Keys && forall b {:trigger b in t} :: b in t ==>
      && t'[b] == t[b].(failedValid := t'[b].failedValid, failedChild := t'[b].failedChild)
      && (t[b].failedValid ==> t'[b].failedValid) && (t[b].failedChild ==> t'[b].failedChild)
  }

  lemma FlagsOnlyMore(t: Tree, t': Tree)
    requires OnlyFlags(t, t')
    ensures MoreFailed(t, t') && SameShape(t, t') && SameData(t, t')
  {
  }

  lemma FlagsKeepLinks(t: Tree, t': Tree, unlinked: set<(Id, Id)>)
    requires CountersOk(t, {}) && UnlinkedOk(t, unlinked) && OnlyFlags(t, t')
    requires forall b :: b in t && t[b].haveData && Failed(t'[b]) ==> t[b].nChainTx != 0
    ensures CountersOk(t', {}) && UnlinkedOk(t', unlinked)
  {
    forall b | b in t'
      ensures t'[b].nChainTx == Linked(t', b) && (t'[b].haveData <==> t'[b].nTx > 0)
              && (t'[b].nChainTx == 0 ==> t'[b].sequenceId == 0)
    {
      assert b in t;
      if t[b].prev.At? && t[b].prev.id in t {
        var p := t[b].prev.id;
        assert p in t;
      }
    }
    FlagsKeepUnlinked(t, t', unlinked);
  }

  lemma FlagsKeepUnlinked(t: Tree, t': Tree, unlinked: set<(Id, Id)>)
    requires UnlinkedOk(t, unlinked) && OnlyFlags(t, t')
    ensures UnlinkedOk(t', unlinked)
  {
    forall e | e in unlinked
      ensures e.0 in t' && e.1 in t' && t'[e.0].nChainTx == 0 && t'[e.1].haveData && t'[e.1].prev == At(e.0)
    {
      var p, c := e.0, e.1;
      assert p in t && c in t;
    }
    forall c | c in t' && t'[c].haveData && t'[c].prev.At? && t'[c].prev.id in t'
                 && t'[t'[c].prev.id].nChainTx == 0 && !Failed(t'[t'[c].prev.id])
      ensures (t'[c].prev.id, c) in unlinked
    {
      assert c in t;
      var p := t[c].prev.id;
      assert p in t;
    }
  }

  lemma FlagsKeepChain(t: Tree, t': Tree, valid: Id -> bool, chain: seq<Id>)
    requires ChainOk(t, valid, chain) && OnlyFlags(t, t')
    ensures ChainOk(t', valid, chain)
  {
    hide AllValid;
    FlagsOnlyMore(t, t');
    forall i | 0 <= i < |chain|
      ensures && chain[i] in t' && t'[chain[i]].height == i && t'[chain[i]].nChainTx != 0
              && AllValid(t', valid, chain[i])
              && t'[chain[i]].prev == if i == 0 then NoBlock else At(chain[i - 1])
    {
      var b := chain[i];
      assert b in t;
      ShapeValid(t, t', valid, b);
    }
  }

  /** Candidates may be dropped when something on their path has failed, and only then. */
  lemma FlagsKeepCandidates(t: Tree, t': Tree, valid: Id -> bool, candidates: set<Id>, candidates': set<Id>,
      chain: seq<Id>, best: Link)
    requires ChainOk(t, valid, chain) && CandidatesOk(t, valid, candidates, chain, best)
    requires OnlyFlags(t, t') && FlagsOk(t', valid) && candidates' <= candidates
    requires forall c :: c in candidates && c !in candidates' ==> !Clean(t', c)
    ensures CandidatesOk(t', valid, candidates', chain, best)
  {
    hide AllValid, Less, Clean, FlagsOk;
    FlagsOnlyMore(t, t');
    forall c | c in candidates'
      ensures c in t' && t'[c].nChainTx != 0
    {
      assert c in candidates && c in t;
    }
    forall b | Good(t', b)
      ensures Good(t, b) && (b in candidates ==> b in candidates')
    {
      CleanShrinks(t, t', b);
      assert b in t;
    }
    if best.At? {
      var x := best.id;
      assert x in candidates && x in t;
      ShapeValid(t, t', valid, x);
      ValidIsClean(t', valid, x);
      forall b | b in t
        ensures Less(t', b, x) == Less(t, b, x) && Less(t', x, b) == Less(t, x, b)
      {
        SameBlockSameOrder(t, t', b, x);
        SameBlockSameOrder(t, t', x, b);
      }
    }
  }

  function MarkValid(t: Tree, x: Id): Tree
    requires x in t
  {
    t[x := t[x].(failedValid := true)]
  }

  function MarkChild(t: Tree, x: Id): Tree
    requires x in t
  {
    t[x := t[x].(failedChild := true)]
  }

  lemma MarkKeepsFlags(t: Tree, t': Tree, valid: Id -> bool, x: Id)
    requires FlagsOk(t, valid) && x in t
    requires (t' == MarkValid(t, x) && !valid(x)) || (t' == MarkChild(t, x) && !Clean(t, x))
    ensures FlagsOk(t', valid) && OnlyFlags(t, t')
  {
    hide SameShape, FlagsRooted, Clean;
    MarkIsFlag(t, t', x);
    if t' == MarkChild(t, x) && !Clean(t, x) {
      CleanIsUninvalidated(t, x);
      InvalidatedGrows(t, t', x);
    }
    assert Invalidated(t', x);
    RootedStays(t, t');
  }

  lemma MarkIsFlag(t: Tree, t': Tree, x: Id)
    requires x in t && (t' == MarkValid(t, x) || t' == MarkChild(t, x))
    ensures OnlyFlags(t, t') && SameShape(t, t')
  {
  }

  // ---------------------------------------------------------------- connecting and disconnecting

  /** PruneBlockIndexCandidates. */
  function Pruned(t: Tree, candidates: set<Id>, tip: Id): set<Id>
    requires tip in t && forall c :: c in candidates ==> c in t
  {
    set c | c in candidates && !Less(t, c, tip)
  }

  /** The new tip, or the old best block if that is still better. */
  function Better(t: Tree, best: Link, x: Id): Link
    requires x in t && (best.At? ==> best.id in t)
  {
    if best.At? && !Less(t, best.id, x) then best else At(x)
  }

  /** `x` can follow the tip. */
  ghost predicate Extends(t: Tree, chain: seq<Id>, x: Id) {
    x in t && t[x].nChainTx != 0 && t[x].height == |chain|
      && t[x].prev == if chain == [] then NoBlock else At(Tip(chain))
  }

  lemma ExtendedChain(t: Tree, genesis: Id, valid: Id -> bool, chain: seq<Id>, x: Id)
    requires TreeOk(t, genesis) && ChainOk(t, valid, chain) && Extends(t, chain, x) && valid(x)
    ensures ChainOk(t, valid, chain + [x])
  {
    hide AllValid, TreeOk;
    NextIsValid(t, genesis, valid, chain, x);
    var longer := chain + [x];
    forall i | 0 <= i < |longer|
      ensures && longer[i] in t && t[longer[i]].height == i && t[longer[i]].nChainTx != 0
              && AllValid(t, valid, longer[i])
              && t[longer[i]].prev == if i == 0 then NoBlock else At(longer[i - 1])
    {
      if i < |chain| {
        assert longer[i] == chain[i] && (i > 0 ==> longer[i - 1] == chain[i - 1]);
      } else {
        assert longer[i] == x && (i > 0 ==> longer[i - 1] == Tip(chain));
      }
    }
  }

  lemma NextIsValid(t: Tree, genesis: Id, valid: Id -> bool, chain: seq<Id>, x: Id)
    requires TreeOk(t, genesis) && ChainOk(t, valid, chain) && Extends(t, chain, x) && valid(x)
    ensures AllValid(t, valid, x)
  {
    if chain != [] {
      var p := Tip(chain);
      assert p in t && AllValid(t, valid, p);
      assert Up(t, x) == At(p);
    }
  }

  lemma ExtendedCandidates(t: Tree, valid: Id -> bool, candidates: set<Id>, chain: seq<Id>, best: Link, x: Id)
    requires x in t && t[x].nChainTx != 0 && AllValid(t, valid, x) && FlagsOk(t, valid)
    requires CandidatesOk(t, valid, candidates, chain, best)
    ensures best.At? ==> best.id in t
    ensures CandidatesOk(t, valid, candidates, chain + [x], Better(t, best, x))
  {
    hide AllValid, Less, Clean, FlagsOk;
    assert forall c :: c in candidates ==> c in t;
    ValidIsClean(t, valid, x);
    assert Good(t, x);
    var best' := Better(t, best, x);
    if best.At? {
      LessIsStrictTotal(t, x, best.id, x);
    }
    var y := best'.id;
    assert y in candidates && AllValid(t, valid, y);
    LessIsStrictTotal(t, x, y, x);
    assert Tip(chain + [x]) == x;
    forall b | Good(t, b)
      ensures b in candidates || Less(t, b, y)
    {
      LessIsStrictTotal(t, b, x, y);
      if best.At? {
        LessIsStrictTotal(t, b, best.id, y);
      }
    }
  }

  /** Candidates below the tip are not needed; the best block seen so far stays. */
  lemma PrunedCandidates(t: Tree, valid: Id -> bool, candidates: set<Id>, chain: seq<Id>, best: Link)
    requires chain != [] && CandidatesOk(t, valid, candidates, chain, best)
    ensures Tip(chain) in t && forall c :: c in candidates ==> c in t
    ensures CandidatesOk(t, valid, Pruned(t, candidates, Tip(chain)), chain, best)
    ensures best.At? && best.id in Pruned(t, candidates, Tip(chain))
  {
    hide AllValid, Less, Clean;
    var x, tip := best.id, Tip(chain);
    var kept := Pruned(t, candidates, tip);
    assert x in kept;
    forall b | Good(t, b)
      ensures b in kept || Less(t, b, x)
    {
      LessIsStrictTotal(t, b, tip, x);
    }
  }

  lemma ShortenedCandidates(t: Tree, genesis: Id, valid: Id -> bool, candidates: set<Id>, chain: seq<Id>, best: Link)
    requires TreeOk(t, genesis) && ChainOk(t, valid, chain) && CandidatesOk(t, valid, candidates, chain, best)
             && chain != []
    ensures ChainOk(t, valid, chain[..|chain| - 1])
    ensures CandidatesOk(t, valid, candidates, chain[..|chain| - 1], best)
  {
    hide AllValid, Clean, Good;
    var chain' := chain[..|chain| - 1];
    ShortenedChain(t, valid, chain);
    if chain' != [] {
      assert Tip(chain') == chain[|chain| - 2];
      assert t[Tip(chain)].prev == At(Tip(chain'));
      hide ChainOk, TreeOk;
      ParentSortsBelow(t, genesis, Tip(chain), Tip(chain'));
    }
  }

  lemma ParentSortsBelow(t: Tree, genesis: Id, b: Id, p: Id)
    requires TreeOk(t, genesis) && b in t && t[b].prev == At(p)
    ensures p in t && t[p].chainWork < t[b].chainWork
  {
  }

  lemma ShortenedChain(t: Tree, valid: Id -> bool, chain: seq<Id>)
    requires ChainOk(t, valid, chain) && chain != []
    ensures ChainOk(t, valid, chain[..|chain| - 1])
  {
    var chain' := chain[..|chain| - 1];
    forall i {:trigger chain'[i]} | 0 <= i < |chain'|
      ensures && chain'[i] in t && t[chain'[i]].height == i && t[chain'[i]].nChainTx != 0
              && AllValid(t, valid, chain'[i]) && t[chain'[i]].prev == if i == 0 then NoBlock else At(chain'[i - 1])
    {
      assert chain'[i] == chain[i] && (i > 0 ==> chain'[i - 1] == chain[i - 1]);
    }
  }

  // ---------------------------------------------------------------- the order of arrival

  /** Linked blocks have numbers below the next one to be given, ... */
  ghost predicate NumbersBelow(t: Tree, next: nat) {
    forall b {:trigger b in t} :: b in t && t[b].nChainTx != 0 ==> 0 < t[b].sequenceId < next
  }

  /** ... each its own, ... */
  ghost predicate NumbersApart(t: Tree) {
    forall a, b {:trigger t[a].sequenceId, t[b].sequenceId} ::
      a in t && b in t && t[a].nChainTx != 0 && t[b].nChainTx != 0 && a != b ==> t[a].sequenceId != t[b].sequenceId
  }

  /** ... above that of the parent. */
  ghost predicate ParentsFirst(t: Tree) {
    forall b {:trigger b in t} :: b in t && t[b].nChainTx != 0 && t[b].prev.At? ==>
      t[b].prev.id in t && t[t[b].prev.id].nChainTx != 0 && t[t[b].prev.id].sequenceId < t[b].sequenceId
  }

  ghost predicate Numbered(t: Tree, next: nat) {
    next > 0 && NumbersBelow(t, next) && NumbersApart(t) && ParentsFirst(t)
  }

  /** Blocks that were linked keep their numbers, and those linked since have numbers from `next` on. */
  ghost predicate Arrived(t: Tree, t': Tree, next: nat) {
    forall b {:trigger b in t} :: b in t ==>
      && b in t' && (t[b].nChainTx != 0 ==> t'[b].nChainTx != 0 && t'[b].sequenceId == t[b].sequenceId)
      && (t[b].nChainTx == 0 && t'[b].nChainTx != 0 ==> t'[b].sequenceId >= next)
  }

  lemma FlagsNumbered(t: Tree, t': Tree, next: nat)
    requires Numbered(t, next) && OnlyFlags(t, t')
    ensures Numbered(t', next)
  {
    hide Numbered;
    forall b | b in t'
      ensures t'[b].nChainTx == t[b].nChainTx && t'[b].sequenceId == t[b].sequenceId && t'[b].prev == t[b].prev
    {
      assert b in t;
    }
    SameNumbers(t, t', next);
  }

  lemma GrownNumbered(t: Tree, b: Id, prev: Link, proof: nat, next: nat)
    requires Numbered(t, next) && b !in t && (prev.At? ==> prev.id in t)
    ensures Numbered(Grown(t, b, prev, proof), next)
  {
  }

  lemma ReceivedNumbered(t: Tree, b: Id, nTx: nat, next: nat)
    requires Numbered(t, next) && b in t && t[b].nChainTx == 0
    ensures Numbered(Received(t, b, nTx), next) && Arrived(t, Received(t, b, nTx), next)
  {
    var t' := Received(t, b, nTx);
    forall x | x in t'
      ensures t'[x].nChainTx == t[x].nChainTx && t'[x].sequenceId == t[x].sequenceId && t'[x].prev == t[x].prev
    {
    }
    SameNumbers(t, t', next);
    hide Numbered;
  }

  lemma SameNumbers(t: Tree, t': Tree, next: nat)
    requires Numbered(t, next) && t'.Keys == t.Keys
    requires forall b {:trigger b in t'} :: b in t' ==>
               t'[b].nChainTx == t[b].nChainTx && t'[b].sequenceId == t[b].sequenceId && t'[b].prev == t[b].prev
    ensures Numbered(t', next)
  {
    SameApart(t, t');
    hide NumbersApart;
  }

  lemma SameApart(t: Tree, t': Tree)
    requires NumbersApart(t) && t'.Keys == t.Keys
    requires forall b {:trigger b in t'} :: b in t' ==>
               t'[b].nChainTx == t[b].nChainTx && t'[b].sequenceId == t[b].sequenceId
    ensures NumbersApart(t')
  {
  }

  /** A block that is linked gets the next number; none of its children was linked before. */
  lemma CountedNumbered(t: Tree, genesis: Id, pending: set<Id>, q: Id, next: nat)
    requires Numbered(t, next) && TreeOk(t, genesis) && CountersOk(t, pending) && q in pending && q in t
    ensures Linked(t, q) != 0 && t[q].nChainTx == 0
    ensures Numbered(Counted(t, q, next), next + 1) && Arrived(t, Counted(t, q, next), next)
  {
    PendingIs(t, pending, q);
    CountedBelow(t, q, next);
    CountedApart(t, q, next);
    CountedParents(t, genesis, q, next);
    hide NumbersBelow, NumbersApart, ParentsFirst, TreeOk, CountersOk;
  }

  lemma PendingIs(t: Tree, pending: set<Id>, q: Id)
    requires CountersOk(t, pending) && q in pending && q in t
    ensures Linked(t, q) != 0 && t[q].nChainTx == 0
  {
  }

  lemma CountedBelow(t: Tree, q: Id, next: nat)
    requires NumbersBelow(t, next) && q in t && next > 0
    ensures NumbersBelow(Counted(t, q, next), next + 1)
  {
  }

  lemma CountedApart(t: Tree, q: Id, next: nat)
    requires NumbersApart(t) && NumbersBelow(t, next) && q in t
    ensures NumbersApart(Counted(t, q, next))
  {
    var t' := Counted(t, q, next);
    forall b | b in t' && b != q
      ensures t'[b] == t[b] && (t[b].nChainTx != 0 ==> t[b].sequenceId < next)
    {
      assert b in t;
    }
  }

  lemma CountedParents(t: Tree, genesis: Id, q: Id, next: nat)
    requires ParentsFirst(t) && NumbersBelow(t, next) && TreeOk(t, genesis) && q in t
    requires Linked(t, q) != 0 && t[q].nChainTx == 0
    ensures ParentsFirst(Counted(t, q, next))
  {
    var t' := Counted(t, q, next);
    forall b | b in t' && t'[b].nChainTx != 0 && t'[b].prev.At?
      ensures t'[b].prev.id in t' && t'[t'[b].prev.id].nChainTx != 0
      ensures t'[t'[b].prev.id].sequenceId < t'[b].sequenceId
    {
      if b == q {
        assert t[q].prev.id in t && t[q].prev.id != q;
      } else {
        assert b in t && t[b].prev.id in t;
      }
    }
  }

  lemma ArrivedAgain(t: Tree, t': Tree, t'': Tree, next: nat, next': nat)
    requires Arrived(t, t', next) && Arrived(t', t'', next') && next <= next'
    ensures Arrived(t, t'', next)
  {
    forall b | b in t
      ensures b in t'' && (t[b].nChainTx != 0 ==> t''[b].nChainTx != 0 && t''[b].sequenceId == t[b].sequenceId)
      ensures t[b].nChainTx == 0 && t''[b].nChainTx != 0 ==> t''[b].sequenceId >= next
    {
      assert b in t';
    }
  }

  /** First seen wins: every other good block has less work than the tip, or as much and was linked later. */
  ghost predicate FirstSeen(t: Tree, chain: seq<Id>) {
    forall b {:trigger Good(t, b)} :: Good(t, b) ==>
      && chain != [] && Tip(chain) in t
      && (b == Tip(chain) || t[b].chainWork < t[Tip(chain)].chainWork
          || (t[b].chainWork == t[Tip(chain)].chainWork && t[b].sequenceId > t[Tip(chain)].sequenceId))
  }

  lemma GreatestIsFirst(t: Tree, valid: Id -> bool, chain: seq<Id>, next: nat)
    requires Numbered(t, next) && ChainOk(t, valid, chain)
    requires forall b {:trigger Good(t, b)} :: Good(t, b) ==> chain != [] && Tip(chain) in t && !Less(t, Tip(chain), b)
    ensures FirstSeen(t, chain)
  {
    hide Clean, AllValid;
    forall b | Good(t, b)
      ensures b == Tip(chain) || t[b].chainWork < t[Tip(chain)].chainWork
              || (t[b].chainWork == t[Tip(chain)].chainWork && t[b].sequenceId > t[Tip(chain)].sequenceId)
    {
      assert t[Tip(chain)].nChainTx != 0;
      assert b != Tip(chain) ==> t[b].sequenceId != t[Tip(chain)].sequenceId;
    }
  }

  // ---------------------------------------------------------------- a new header

  function Grown(t: Tree, b: Id, prev: Link, proof: nat): Tree
    requires prev.At? ==> prev.id in t
  {
    var height := if prev.At? then t[prev.id].height + 1 else 0;
    var work := if prev.At? then t[prev.id].chainWork else 0;
    t[b := Block(prev, height, work + proof, 0, 0, 0, false, false, false)]
  }

  lemma GrownIs(t: Tree, b: Id, prev: Link, proof: nat)
    requires b !in t && (prev.At? ==> prev.id in t)
    ensures var t' := Grown(t, b, prev, proof);
            && b in t' && (forall x :: x in t ==> x in t' && t'[x] == t[x])
            && t'[b].prev == prev && !t'[b].haveData && !Failed(t'[b])
            && t'[b].height == (if prev.At? then t[prev.id].height + 1 else 0)
            && t'[b].chainWork == (if prev.At? then t[prev.id].chainWork else 0) + proof
  {
  }

  lemma {:induction false} GrownSame(t: Tree, genesis: Id, valid: Id -> bool, b: Id, prev: Link, proof: nat, x: Id)
    requires TreeOk(t, genesis) && b !in t && (prev.At? ==> prev.id in t) && x in t
    ensures var t' := Grown(t, b, prev, proof);
            && Clean(t', x) == Clean(t, x) && AllValid(t', valid, x) == AllValid(t, valid, x)
            && Invalidated(t', x) == Invalidated(t, x)
    decreases Height(t, x)
  {
    var t' := Grown(t, b, prev, proof);
    assert Up(t', x) == Up(t, x);
    if Up(t, x).At? {
      GrownSame(t, genesis, valid, b, prev, proof, Up(t, x).id);
    }
  }

  lemma GrownTree(t: Tree, genesis: Id, unlinked: set<(Id, Id)>, b: Id, prev: Link, proof: nat)
    requires TreeOk(t, genesis) && CountersOk(t, {}) && UnlinkedOk(t, unlinked)
    requires b !in t && proof > 0 && (if prev.At? then prev.id in t else b == genesis)
    ensures var t' := Grown(t, b, prev, proof); TreeOk(t', genesis) && CountersOk(t', {}) && UnlinkedOk(t', unlinked)
  {
    var t' := Grown(t, b, prev, proof);
    forall x | x in t
      ensures t'[x] == t[x] && Linked(t', x) == Linked(t, x)
    {
    }
  }

  lemma SameBlocksChain(t: Tree, t': Tree, valid: Id -> bool, chain: seq<Id>)
    requires ChainOk(t, valid, chain)
    requires forall x :: x in t ==> x in t' && t'[x] == t[x] && AllValid(t', valid, x) == AllValid(t, valid, x)
    ensures ChainOk(t', valid, chain)
    ensures forall i :: 0 <= i < |chain| ==> chain[i] in t && t'[chain[i]] == t[chain[i]]
  {
    hide AllValid;
    forall i {:trigger chain[i]} | 0 <= i < |chain|
      ensures && chain[i] in t' && t'[chain[i]].height == i && t'[chain[i]].nChainTx != 0
              && AllValid(t', valid, chain[i]) && t'[chain[i]].prev == if i == 0 then NoBlock else At(chain[i - 1])
    {
      assert chain[i] in t;
    }
  }

  lemma GrownChain(t: Tree, genesis: Id, valid: Id -> bool, candidates: set<Id>, chain: seq<Id>, best: Link, b: Id,
      prev: Link, proof: nat)
    requires TreeOk(t, genesis) && ChainOk(t, valid, chain) && FlagsOk(t, valid)
             && CandidatesOk(t, valid, candidates, chain, best)
    requires b !in t && (prev.At? ==> prev.id in t)
    ensures var t' := Grown(t, b, prev, proof);
            ChainOk(t', valid, chain) && FlagsOk(t', valid) && CandidatesOk(t', valid, candidates, chain, best)
  {
    hide AllValid, Clean, Invalidated, TreeOk;
    var t' := Grown(t, b, prev, proof);
    forall x | x in t
      ensures t'[x] == t[x] && Clean(t', x) == Clean(t, x) && AllValid(t', valid, x) == AllValid(t, valid, x)
      ensures Invalidated(t', x) == Invalidated(t, x)
    {
      GrownSame(t, genesis, valid, b, prev, proof, x);
    }
    SameBlocksChain(t, t', valid, chain);
    hide ChainOk;
    forall x | Good(t', x)
      ensures Good(t, x)
    {
      assert x != b;
    }
    forall x | x in t' && Failed(t'[x])
      ensures Invalidated(t', x)
    {
      assert x in t;
    }
  }

  // ---------------------------------------------------------------- a block's data arrives

  function Received(t: Tree, b: Id, nTx: nat): Tree
    requires b in t
  {
    t[b := t[b].(nTx := nTx, nChainTx := 0, haveData := true)]
  }

  predicate ParentLinked(t: Tree, b: Id)
    requires b in t
  {
    t[b].prev.At? ==> t[b].prev.id in t && t[t[b].prev.id].nChainTx != 0
  }

  lemma ReceivedLinks(t: Tree, genesis: Id, unlinked: set<(Id, Id)>, b: Id, nTx: nat)
    requires TreeOk(t, genesis) && CountersOk(t, {}) && UnlinkedOk(t, unlinked)
    requires b in t && !t[b].haveData && !Failed(t[b]) && nTx > 0
    ensures t[b].prev.At? ==> t[b].prev.id in t
    ensures var t' := Received(t, b, nTx);
            && TreeOk(t', genesis) && CountersOk(t', if ParentLinked(t, b) then {b} else {})
            && UnlinkedOk(t',
               if ParentLinked(t, b) || Failed(t[t[b].prev.id]) then unlinked else unlinked + {(t[b].prev.id, b)})
  {
    ReceivedCounters(t, b, nTx);
    hide CountersOk, UnlinkedOk;
    ShapeTree(t, Received(t, b, nTx), genesis);
    ReceivedUnlinked(t, unlinked, b, nTx);
  }

  lemma ReceivedCounters(t: Tree, b: Id, nTx: nat)
    requires CountersOk(t, {}) && b in t && !t[b].haveData && !Failed(t[b]) && nTx > 0
    ensures t[b].nChainTx == 0 && CountersOk(Received(t, b, nTx), if ParentLinked(t, b) then {b} else {})
  {
    var t' := Received(t, b, nTx);
    assert t[b].nChainTx == 0;
    forall x | x in t
      ensures x != b ==> t'[x] == t[x] && Linked(t', x) == Linked(t, x)
    {
    }
  }

  lemma ReceivedUnlinked(t: Tree, unlinked: set<(Id, Id)>, b: Id, nTx: nat)
    requires UnlinkedOk(t, unlinked) && b in t && t[b].nChainTx == 0
    requires t[b].prev.At? ==> t[b].prev.id in t
    ensures UnlinkedOk(Received(t, b, nTx),
            if ParentLinked(t, b) || Failed(t[t[b].prev.id]) then unlinked else unlinked + {(t[b].prev.id, b)})
  {
    var t' := Received(t, b, nTx);
    var unlinked' := if ParentLinked(t, b) || Failed(t[t[b].prev.id]) then unlinked else unlinked + {(t[b].prev.id, b)};
    forall e | e in unlinked'
      ensures e.0 in t' && e.1 in t' && t'[e.0].nChainTx == 0 && t'[e.1].haveData && t'[e.1].prev == At(e.0)
    {
      if e in unlinked {
        var p, c := e.0, e.1;
        assert p in t && c in t;
      }
    }
    forall c | c in t' && t'[c].haveData && t'[c].prev.At? && t'[c].prev.id in t'
                 && t'[t'[c].prev.id].nChainTx == 0 && !Failed(t'[t'[c].prev.id])
      ensures (t'[c].prev.id, c) in unlinked'
    {
      assert c in t;
      var p := t[c].prev.id;
      assert p in t;
    }
  }

  lemma ReceivedChain(t: Tree, genesis: Id, valid: Id -> bool, candidates: set<Id>, chain: seq<Id>, best: Link, b: Id,
      nTx: nat)
    requires ChainOk(t, valid, chain) && FlagsOk(t, valid) && CandidatesOk(t, valid, candidates, chain, best)
    requires b in t && t[b].nChainTx == 0
    ensures var t' := Received(t, b, nTx);
            ChainOk(t', valid, chain) && FlagsOk(t', valid) && CandidatesOk(t', valid, candidates, chain, best)
  {
    hide AllValid, Clean, FlagsRooted;
    var t' := Received(t, b, nTx);
    forall x
      ensures AllValid(t', valid, x) == AllValid(t, valid, x)
    {
      ShapeValid(t, t', valid, x);
    }
    forall x | Good(t', x)
      ensures Good(t, x)
    {
      assert MoreFailed(t, t');
      CleanShrinks(t, t', x);
    }
    RootedStays(t, t');
  }

  // ---------------------------------------------------------------- whole states

  /** Everything the program keeps true of its block index between two operations. */
  ghost predicate AllOk(t: Tree, genesis: Id, valid: Id -> bool, candidates: set<Id>, unlinked: set<(Id, Id)>,
      chain: seq<Id>, best: Link) {
    && TreeOk(t, genesis) && CountersOk(t, {}) && UnlinkedOk(t, unlinked)
    && ChainOk(t, valid, chain) && FlagsOk(t, valid) && CandidatesOk(t, valid, candidates, chain, best)
  }

  /** A block that failed, or descends from one that did, is marked and is no candidate any more. */
  lemma MarkStep(t: Tree, t': Tree, genesis: Id, valid: Id -> bool, candidates: set<Id>, unlinked: set<(Id, Id)>,
      chain: seq<Id>, best: Link, x: Id)
    requires AllOk(t, genesis, valid, candidates, unlinked, chain, best) && x in t
    requires t[x].haveData ==> t[x].nChainTx != 0
    requires (t' == MarkValid(t, x) && !valid(x)) || (t' == MarkChild(t, x) && !Clean(t, x))
    ensures AllOk(t', genesis, valid, candidates - {x}, unlinked, chain, best) && OnlyFlags(t, t')
  {
    hide TreeOk, CountersOk, UnlinkedOk, ChainOk, FlagsOk, CandidatesOk, AllValid, Clean;
    MarkKeepsFlags(t, t', valid, x);
    MarkIsFlag(t, t', x);
    ShapeTree(t, t', genesis);
    MarkKeepsLinks(t, t', unlinked, x);
    FlagsKeepChain(t, t', valid, chain);
    FailedBelow(t', x, x);
    FlagsKeepCandidates(t, t', valid, candidates, candidates - {x}, chain, best);
  }

  lemma MarkKeepsLinks(t: Tree, t': Tree, unlinked: set<(Id, Id)>, x: Id)
    requires CountersOk(t, {}) && UnlinkedOk(t, unlinked) && x in t && (t[x].haveData ==> t[x].nChainTx != 0)
    requires t' == MarkValid(t, x) || t' == MarkChild(t, x)
    ensures CountersOk(t', {}) && UnlinkedOk(t', unlinked)
  {
    MarkIsFlag(t, t', x);
    hide UnlinkedOk;
    FlagsKeepLinks(t, t', unlinked);
  }

  /** A candidate with a failed block on its path can be dropped. */
  lemma EraseStep(t: Tree, genesis: Id, valid: Id -> bool, candidates: set<Id>, unlinked: set<(Id, Id)>, chain: seq<Id>,
      best: Link, x: Id)
    requires AllOk(t, genesis, valid, candidates, unlinked, chain, best) && !Clean(t, x)
    ensures AllOk(t, genesis, valid, candidates - {x}, unlinked, chain, best)
  {
    hide TreeOk, CountersOk, UnlinkedOk, ChainOk, FlagsOk, CandidatesOk, Clean;
    FlagsKeepCandidates(t, t, valid, candidates, candidates - {x}, chain, best);
  }

  /** The parent of a linked block is linked. */
  lemma LinkedParent(t: Tree, genesis: Id, b: Id)
    requires TreeOk(t, genesis) && CountersOk(t, {}) && b in t && t[b].nChainTx != 0
    ensures t[b].haveData
    ensures t[b].prev.At? ==> t[b].prev.id in t && t[t[b].prev.id].nChainTx != 0 && Up(t, b) == t[b].prev
    ensures t[b].prev.NoBlock? ==> Up(t, b) == NoBlock
  {
  }

  lemma {:induction false} LinkedAncestor(t: Tree, genesis: Id, a: Id, b: Id)
    requires TreeOk(t, genesis) && CountersOk(t, {}) && b in t && t[b].nChainTx != 0 && IsAncestor(t, a, b)
    ensures a in t && t[a].nChainTx != 0
    decreases Height(t, b)
  {
    if a != b {
      LinkedParent(t, genesis, b);
      LinkedAncestor(t, genesis, a, Up(t, b).id);
    }
  }

  predicate Contains(t: Tree, chain: seq<Id>, b: Id)
    requires b in t
  {
    t[b].height < |chain| && chain[t[b].height] == b
  }

  /** Blocks of the active chain are valid, hence not marked. */
  lemma ActiveIsClean(t: Tree, valid: Id -> bool, chain: seq<Id>, b: Id)
    requires ChainOk(t, valid, chain) && FlagsOk(t, valid) && b in chain
    ensures AllValid(t, valid, b) && Clean(t, b)
  {
    hide AllValid, Clean, FlagsOk;
    var i :| 0 <= i < |chain| && chain[i] == b;
    ValidIsClean(t, valid, b);
  }

  // ---------------------------------------------------------------- moving along a path

  /** How many blocks the active chain shares with the path to `b`. */
  function Common(t: Tree, chain: seq<Id>, b: Id): nat
    requires b in t
    decreases Height(t, b)
  {
    if Contains(t, chain, b) then t[b].height + 1
    else if Up(t, b).At? then Common(t, chain, Up(t, b).id)
    else 0
  }

  /** The active chain is the beginning of the path to `b`. */
  ghost predicate OnPath(t: Tree, chain: seq<Id>, b: Id) {
    && b in t && |chain| <= t[b].height + 1
    && forall i {:trigger chain[i]} :: 0 <= i < |chain| ==> chain[i] == Ancestor(t, b, i)
  }

  lemma {:induction false} ChainIsPath(t: Tree, genesis: Id, valid: Id -> bool, chain: seq<Id>, b: Id, i: nat)
    requires TreeOk(t, genesis) && ChainOk(t, valid, chain) && b in t && Contains(t, chain, b) && i <= t[b].height
    ensures chain[i] == Ancestor(t, b, i)
    decreases Height(t, b)
  {
    hide AllValid;
    if i < t[b].height {
      var p := chain[t[b].height - 1];
      assert t[chain[t[b].height]].prev == At(p);
      assert Up(t, b) == At(p);
      ChainIsPath(t, genesis, valid, chain, p, i);
    }
  }

  lemma {:induction false} CommonIs(t: Tree, genesis: Id, valid: Id -> bool, chain: seq<Id>, b: Id)
    requires TreeOk(t, genesis) && ChainOk(t, valid, chain) && b in t
    ensures var k := Common(t, chain, b);
            && k <= |chain| && k <= t[b].height + 1
            && forall i :: 0 <= i < k ==> chain[i] == Ancestor(t, b, i)
    ensures Common(t, chain, b) == t[b].height + 1 <==> Contains(t, chain, b)
    decreases Height(t, b)
  {
    hide AllValid, ChainOk;
    if Contains(t, chain, b) {
      forall i: nat | i < t[b].height + 1
        ensures chain[i] == Ancestor(t, b, i)
      {
        ChainIsPath(t, genesis, valid, chain, b, i);
      }
    } else if Up(t, b).At? {
      CommonIs(t, genesis, valid, chain, Up(t, b).id);
    }
  }

  lemma {:induction false} OnPathCommon(t: Tree, genesis: Id, chain: seq<Id>, b: Id)
    requires TreeOk(t, genesis) && OnPath(t, chain, b)
    ensures Common(t, chain, b) == |chain|
    decreases Height(t, b)
  {
    if |chain| == t[b].height + 1 {
      assert chain[t[b].height] == b;
    } else if Up(t, b).At? {
      var p := Up(t, b).id;
      forall i | 0 <= i < |chain|
        ensures chain[i] == Ancestor(t, p, i)
      {
      }
      OnPathCommon(t, genesis, chain, p);
    } else {
      assert t[b].height == 0;
    }
  }

  /** The next block on the path to a linked block can follow the tip. */
  lemma NextOnPath(t: Tree, genesis: Id, chain: seq<Id>, b: Id)
    requires TreeOk(t, genesis) && CountersOk(t, {}) && OnPath(t, chain, b) && t[b].nChainTx != 0
             && |chain| <= t[b].height
    ensures var x := Ancestor(t, b, |chain|);
            Extends(t, chain, x) && IsAncestor(t, x, b) && OnPath(t, chain + [x], b)
  {
    hide CountersOk, TreeOk, Ancestor, IsAncestor, OnPath;
    var n := |chain|;
    PathGrows(t, chain, b);
    AncestorAt(t, genesis, b, n);
    var x := Ancestor(t, b, n);
    LinkedAncestor(t, genesis, x, b);
  }

  lemma PathGrows(t: Tree, chain: seq<Id>, b: Id)
    requires OnPath(t, chain, b) && |chain| <= t[b].height
    ensures b in t && OnPath(t, chain + [Ancestor(t, b, |chain|)], b)
    ensures chain != [] ==> Tip(chain) == Ancestor(t, b, |chain| - 1)
  {
    hide Ancestor;
  }

  /** Cutting the active chain back to what it shares with a path puts it on that path. */
  lemma CutBack(t: Tree, genesis: Id, valid: Id -> bool, chain: seq<Id>, b: Id, n: nat)
    requires TreeOk(t, genesis) && ChainOk(t, valid, chain) && b in t && n == Common(t, chain, b)
    ensures n <= |chain| && OnPath(t, chain[..n], b)
  {
    hide TreeOk, ChainOk;
    CommonIs(t, genesis, valid, chain, b);
  }

  /** Blocks at different positions of the chain are different. */
  lemma ChainDistinct(t: Tree, valid: Id -> bool, chain: seq<Id>, i: nat, j: nat)
    requires ChainOk(t, valid, chain) && i < |chain| && j < |chain|
    ensures chain[i] == chain[j] <==> i == j
  {
    hide AllValid;
    assert t[chain[i]].height == i && t[chain[j]].height == j;
  }

  lemma ConnectStep(t: Tree, genesis: Id, valid: Id -> bool, candidates: set<Id>, unlinked: set<(Id, Id)>,
      chain: seq<Id>, best: Link, x: Id)
    requires AllOk(t, genesis, valid, candidates, unlinked, chain, best) && Extends(t, chain, x) && valid(x)
    ensures best.At? ==> best.id in t
    ensures AllOk(t, genesis, valid, candidates, unlinked, chain + [x], Better(t, best, x))
  {
    hide TreeOk, CountersOk, UnlinkedOk, ChainOk, FlagsOk, CandidatesOk, AllValid, Better;
    NextIsValid(t, genesis, valid, chain, x);
    ExtendedChain(t, genesis, valid, chain, x);
    ExtendedCandidates(t, valid, candidates, chain, best, x);
  }

  lemma DisconnectStep(t: Tree, genesis: Id, valid: Id -> bool, candidates: set<Id>, unlinked: set<(Id, Id)>,
      chain: seq<Id>, best: Link)
    requires AllOk(t, genesis, valid, candidates, unlinked, chain, best) && chain != []
    ensures AllOk(t, genesis, valid, candidates, unlinked, chain[..|chain| - 1], best)
  {
    hide TreeOk, CountersOk, UnlinkedOk, ChainOk, FlagsOk, CandidatesOk;
    ShortenedCandidates(t, genesis, valid, candidates, chain, best);
  }

  lemma PruneStep(t: Tree, genesis: Id, valid: Id -> bool, candidates: set<Id>, unlinked: set<(Id, Id)>, chain: seq<Id>,
      best: Link)
    requires AllOk(t, genesis, valid, candidates, unlinked, chain, best) && chain != []
    ensures Tip(chain) in t && (forall c :: c in candidates ==> c in t) && best.At?
            && best.id in Pruned(t, candidates, Tip(chain))
    ensures AllOk(t, genesis, valid, Pruned(t, candidates, Tip(chain)), unlinked, chain, best)
  {
    hide TreeOk, CountersOk, UnlinkedOk, ChainOk, FlagsOk, CandidatesOk, Pruned;
    PrunedCandidates(t, valid, candidates, chain, best);
  }

  /** The greatest candidate is not below the tip on the active chain. */
  lemma GreatestIsAhead(t: Tree, genesis: Id, valid: Id -> bool, candidates: set<Id>, unlinked: set<(Id, Id)>,
      chain: seq<Id>, best: Link, c: Id)
    requires AllOk(t, genesis, valid, candidates, unlinked, chain, best) && (forall d :: d in candidates ==> d in t)
             && IsMax(t, candidates, c)
    requires chain == [] || c != Tip(chain)
    ensures !Contains(t, chain, c) && Common(t, chain, c) < t[c].height + 1
  {
    hide CountersOk, UnlinkedOk, FlagsOk, Less, AllValid, Clean, Common;
    if chain != [] {
      var h := t[c].height;
      var tip := Tip(chain);
      assert t[tip].height == |chain| - 1 && tip in t;
      LessIsStrictTotal(t, tip, best.id, c);
      if h < |chain| - 1 && chain[h] == c {
        ChainIsPath(t, genesis, valid, chain, tip, h);
        AncestorIsAncestor(t, tip, h);
        AncestorsSortBelow(t, genesis, c, tip);
      }
    }
    CommonIs(t, genesis, valid, chain, c);
  }

  /** Pruning below an ancestor of the greatest candidate leaves it the greatest. */
  lemma GreatestStays(t: Tree, genesis: Id, candidates: set<Id>, c: Id, x: Id)
    requires TreeOk(t, genesis) && (forall d :: d in candidates ==> d in t) && IsMax(t, candidates, c) && x in t
             && IsAncestor(t, x, c)
    ensures IsMax(t, Pruned(t, candidates, x), c)
  {
    hide Less, TreeOk;
    AncestorsSortBelow(t, genesis, x, c);
    LessIsStrictTotal(t, x, c, c);
  }

  /** Blocks not known to be invalid themselves: their number bounds how often a switch can fail. */
  function Unfailed(t: Tree): set<Id> { set b | b in t && !t[b].failedValid }

  lemma MarkedShrinks(t: Tree, x: Id)
    requires x in t && !t[x].failedValid
    ensures Unfailed(MarkValid(t, x)) < Unfailed(t)
  {
    assert x in Unfailed(t) && x !in Unfailed(MarkValid(t, x));
  }

  /** With an invalid root nothing is good. */
  lemma {:induction false} RootBelowAll(t: Tree, genesis: Id, b: Id)
    requires TreeOk(t, genesis) && b in t
    ensures IsAncestor(t, genesis, b)
    decreases Height(t, b)
  {
    if Up(t, b).At? {
      RootBelowAll(t, genesis, Up(t, b).id);
    } else {
      assert t[b].prev.NoBlock?;
    }
  }

  /** When the greatest candidate is the tip, no good block is better than the tip. */
  lemma TipIsBest(t: Tree, genesis: Id, valid: Id -> bool, candidates: set<Id>, unlinked: set<(Id, Id)>, chain: seq<Id>,
      best: Link, b: Id)
    requires AllOk(t, genesis, valid, candidates, unlinked, chain, best) && (forall d :: d in candidates ==> d in t)
    requires chain != [] && IsMax(t, candidates, Tip(chain)) && Good(t, b)
    ensures !Less(t, Tip(chain), b)
  {
    hide TreeOk, CountersOk, UnlinkedOk, FlagsOk, ChainOk, Less, AllValid, Clean;
    LessIsStrictTotal(t, b, best.id, Tip(chain));
    LessIsStrictTotal(t, b, Tip(chain), b);
  }

  function ForkOf(t: Tree, chain: seq<Id>, b: Id): Link
    requires b in t
  {
    var n := Common(t, chain, b);
    if 0 < n <= |chain| then At(chain[n - 1]) else NoBlock
  }

  /** The fork is the highest block that is both active and an ancestor. */
  lemma {:induction false} ForkIsHighest(t: Tree, genesis: Id, chain: seq<Id>, a: Id, b: Id)
    requires TreeOk(t, genesis) && b in t && IsAncestor(t, a, b) && a in t && Contains(t, chain, a)
    ensures t[a].height < Common(t, chain, b)
    decreases Height(t, b)
  {
    if a == b {
    } else if Contains(t, chain, b) {
      AncestorsSortBelow(t, genesis, a, b);
    } else {
      ForkIsHighest(t, genesis, chain, a, Up(t, b).id);
    }
  }

  // ---------------------------------------------------------------- no candidate below the tip

  /** No candidate sorts below the tip. */
  ghost predicate Neat(t: Tree, candidates: set<Id>, chain: seq<Id>) {
    chain != [] ==>
        Tip(chain) in t && forall c {:trigger c in candidates} :: c in candidates ==> c in t && !Less(t, c, Tip(chain))
  }

  /** Blocks that keep their place in the order, and a smaller set of candidates. */
  lemma NeatStays(t: Tree, t': Tree, candidates: set<Id>, candidates': set<Id>, chain: seq<Id>)
    requires Neat(t, candidates, chain) && candidates' <= candidates
    requires forall b :: b in t ==> b in t' && t'[b].chainWork == t[b].chainWork && t'[b].sequenceId == t[b].sequenceId
    ensures Neat(t', candidates', chain)
  {
    hide Less;
    forall c | chain != [] && c in candidates'
      ensures c in t' && !Less(t', c, Tip(chain))
    {
      assert c in candidates;
      SameBlockSameOrder(t, t', c, Tip(chain));
    }
  }

  lemma FlagsNeat(t: Tree, t': Tree, candidates: set<Id>, candidates': set<Id>, chain: seq<Id>)
    requires Neat(t, candidates, chain) && OnlyFlags(t, t') && candidates' <= candidates
    ensures Neat(t', candidates', chain)
  {
    hide Neat;
    NeatStays(t, t', candidates, candidates', chain);
  }

  lemma CountedNeat(t: Tree, valid: Id -> bool, candidates: set<Id>, chain: seq<Id>, best: Link, q: Id, seqId: nat)
    requires Neat(t, candidates, chain) && q in t && t[q].nChainTx == 0
    requires ChainOk(t, valid, chain) && CandidatesOk(t, valid, candidates, chain, best)
    ensures var t' := Counted(t, q, seqId);
            && (forall i :: 0 <= i < |chain| ==> chain[i] in t')
            && Neat(t', if NotBelowTip(t', q, chain) then candidates + {q} else candidates, chain)
  {
    hide Less, AllValid, Linked, Good;
    var t' := Counted(t, q, seqId);
    forall c | chain != [] && c in candidates
      ensures c in t' && !Less(t', c, Tip(chain))
    {
      assert c in t && c != q && Tip(chain) != q;
      SameBlockSameOrder(t, t', c, Tip(chain));
    }
  }

  lemma ShortenedNeat(t: Tree, genesis: Id, valid: Id -> bool, candidates: set<Id>, chain: seq<Id>)
    requires TreeOk(t, genesis) && ChainOk(t, valid, chain) && Neat(t, candidates, chain) && chain != []
    ensures Neat(t, candidates, chain[..|chain| - 1])
  {
    hide AllValid;
    var chain' := chain[..|chain| - 1];
    if chain' != [] {
      assert Tip(chain') == chain[|chain| - 2];
      assert t[Tip(chain)].prev == At(Tip(chain'));
    }
  }

  // ---------------------------------------------------------------- the run-time check

  /** What CheckBlockIndex asks of one block, in its own terms: nothing is pruned, so that a block has data
      exactly when it was processed. */
  ghost predicate Checked(t: Tree, genesis: Id, candidates: set<Id>, unlinked: set<(Id, Id)>, chain: seq<Id>, b: Id)
    requires b in t && chain != [] && Tip(chain) in t
  {
    var x := t[b];
    var found := x.prev.At? && (x.prev.id, b) in unlinked;
    && (x.prev.NoBlock? ==> b == genesis && chain[0] == b && x.height == 0)
    && (x.prev.At? ==> x.prev.id in t && x.height == t[x.prev.id].height + 1 && x.chainWork >= t[x.prev.id].chainWork)
    && (x.nChainTx == 0 ==> x.sequenceId == 0)
    && (x.haveData <==> x.nTx > 0)
    && (AllReceived(t, b) <==> x.nChainTx != 0)
    && (!Invalidated(t, b) ==> !Failed(x))
    && (if !Less(t, b, Tip(chain)) && AllReceived(t, b) then !Invalidated(t, b) ==> b in candidates
       else b !in candidates)
    && (x.prev.At? && x.haveData && !AllReceived(t, b) && !Invalidated(t, b) ==> found)
    && (!x.haveData || AllReceived(t, b) ==> !found)
  }

  ghost predicate CheckBlockIndex(t: Tree, genesis: Id, candidates: set<Id>, unlinked: set<(Id, Id)>, chain: seq<Id>) {
    if chain == [] then |t| <= 1
    else
      && genesis in t && t[genesis].prev == NoBlock && Tip(chain) in t
      && forall b {:trigger b in t} :: b in t ==> Checked(t, genesis, candidates, unlinked, chain, b)
  }

  lemma {:induction false} RootKnown(t: Tree, genesis: Id, b: Id)
    requires TreeOk(t, genesis) && b in t
    ensures genesis in t && t[genesis].prev == NoBlock
    decreases Height(t, b)
  {
    if t[b].prev.At? {
      RootKnown(t, genesis, t[b].prev.id);
    }
  }

  lemma CheckedLinks(t: Tree, genesis: Id, unlinked: set<(Id, Id)>, b: Id)
    requires TreeOk(t, genesis) && CountersOk(t, {}) && UnlinkedOk(t, unlinked) && FlagsRooted(t) && b in t
    ensures var x := t[b];
            var found := x.prev.At? && (x.prev.id, b) in unlinked;
            && (AllReceived(t, b) <==> x.nChainTx != 0)
            && (x.prev.At? && x.haveData && !AllReceived(t, b) && !Invalidated(t, b) ==> found)
            && (!x.haveData || AllReceived(t, b) ==> !found)
  {
    ChainTxIsExact(t, genesis, b);
    if t[b].prev.At? {
      var p := t[b].prev.id;
      ChainTxIsExact(t, genesis, p);
      assert p in t && Up(t, b) == At(p);
    }
  }

  lemma CheckedChoice(t: Tree, genesis: Id, valid: Id -> bool, candidates: set<Id>, chain: seq<Id>, b: Id)
    requires chain != [] && CandidatesOk(t, valid, candidates, chain, At(Tip(chain)))
    requires Neat(t, candidates, chain) && FlagsRooted(t) && b in t && (AllReceived(t, b) <==> t[b].nChainTx != 0)
    ensures Tip(chain) in t
    ensures if !Less(t, b, Tip(chain)) && AllReceived(t, b) then !Invalidated(t, b) ==> b in candidates
            else b !in candidates
  {
    hide Less, AllValid, AllReceived;
    CleanIsUninvalidated(t, b);
    if Clean(t, b) && t[b].nChainTx != 0 {
      assert Good(t, b);
    }
  }

  lemma RootIsActive(t: Tree, genesis: Id, valid: Id -> bool, chain: seq<Id>)
    requires TreeOk(t, genesis) && ChainOk(t, valid, chain) && chain != []
    ensures chain[0] == genesis && Tip(chain) in t && valid(genesis)
  {
    assert t[chain[0]].prev == NoBlock;
  }

  /** The invariant implies the run-time check once the best block is the tip. */
  lemma CheckHolds(t: Tree, genesis: Id, valid: Id -> bool, candidates: set<Id>, unlinked: set<(Id, Id)>,
      chain: seq<Id>)
    requires chain != [] && AllOk(t, genesis, valid, candidates, unlinked, chain, At(Tip(chain)))
             && Neat(t, candidates, chain)
    ensures CheckBlockIndex(t, genesis, candidates, unlinked, chain)
  {
    hide UnlinkedOk, ChainOk, CandidatesOk, Neat, FlagsRooted, Less, AllReceived, Invalidated;
    RootIsActive(t, genesis, valid, chain);
    RootKnown(t, genesis, Tip(chain));
    forall b | b in t
      ensures Checked(t, genesis, candidates, unlinked, chain, b)
    {
      CheckedLinks(t, genesis, unlinked, b);
      CheckedChoice(t, genesis, valid, candidates, chain, b);
      if !Invalidated(t, b) && Failed(t[b]) {
        RootedHere(t, b);
      }
    }
  }

  lemma RootedHere(t: Tree, b: Id)
    requires FlagsRooted(t) && b in t && Failed(t[b])
    ensures Invalidated(t, b)
  {
  }

  /** Conversely, where the check succeeds the tip is as good a witness as any for what is a candidate. */
  lemma CheckSettles(t: Tree, genesis: Id, valid: Id -> bool, candidates: set<Id>, unlinked: set<(Id, Id)>,
      chain: seq<Id>, best: Link)
    requires AllOk(t, genesis, valid, candidates, unlinked, chain, best) && chain != []
    requires CheckBlockIndex(t, genesis, candidates, unlinked, chain)
    ensures AllOk(t, genesis, valid, candidates, unlinked, chain, At(Tip(chain)))
  {
    hide TreeOk, CountersOk, UnlinkedOk, Less, AllReceived, Invalidated, AllValid, Clean, FlagsRooted;
    var tip := Tip(chain);
    ActiveIsClean(t, valid, chain, tip);
    LessIsStrictTotal(t, tip, tip, tip);
    forall b | Good(t, b)
      ensures b in candidates || Less(t, b, tip)
    {
      assert Checked(t, genesis, candidates, unlinked, chain, b);
      CleanIsUninvalidated(t, b);
    }
    assert Good(t, tip);
  }

  /** When the greatest candidate is the tip, the tip is the best block seen. */
  lemma TipSettles(t: Tree, genesis: Id, valid: Id -> bool, candidates: set<Id>, unlinked: set<(Id, Id)>,
      chain: seq<Id>, best: Link)
    requires AllOk(t, genesis, valid, candidates, unlinked, chain, best) && (forall d :: d in candidates ==> d in t)
    requires chain != [] && IsMax(t, candidates, Tip(chain))
    ensures best == At(Tip(chain))
  {
    hide TreeOk, CountersOk, UnlinkedOk, FlagsOk, ChainOk, Less, AllValid, Good;
    LessIsStrictTotal(t, best.id, Tip(chain), best.id);
  }

  /** An active root stays unmarked. */
  lemma ValidRoot(t: Tree, genesis: Id, valid: Id -> bool)
    requires TreeOk(t, genesis) && FlagsOk(t, valid) && valid(genesis) && genesis in t && t[genesis].prev == NoBlock
    ensures !Failed(t[genesis])
  {
    assert Up(t, genesis) == NoBlock;
  }
}
