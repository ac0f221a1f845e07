/** The block index, the candidate set and the active chain as the program updates them. */
module Chainstate {
  import opened BlockTree
  import opened BestChain

  function Members(s: seq<Id>): set<Id> { set x | x in s }

  predicate NoDuplicates(s: seq<Id>) { forall i, j :: 0 <= i < j < |s| ==> s[i] != s[j] }

  lemma PopFront(s: seq<Id>)
    requires s != [] && NoDuplicates(s)
    ensures NoDuplicates(s[1..]) && Members(s[1..]) == Members(s) - {s[0]}
  {
    forall x | x in s && x != s[0]
      ensures x in s[1..]
    {
      var i :| 0 <= i < |s| && s[i] == x;
      assert s[1..][i - 1] == x;
    }
  }

  lemma PushBack(s: seq<Id>, x: Id)
    requires x !in s && NoDuplicates(s)
    ensures NoDuplicates(s + [x]) && Members(s + [x]) == Members(s) + {x}
  {
  }

  lemma TakeWaiting(unlinked: set<(Id, Id)>, e: (Id, Id))
    requires e in unlinked
    ensures Waiting(unlinked - {e}, e.0) == Waiting(unlinked, e.0) - {e.1} && e.1 in Waiting(unlinked, e.0)
    ensures NotUnder(unlinked - {e}, e.0) == NotUnder(unlinked, e.0)
  {
    forall c: Id
      ensures c in Waiting(unlinked - {e}, e.0) <==> c in Waiting(unlinked, e.0) - {e.1}
    {
      WaitingIs(unlinked, e.0, c);
      WaitingIs(unlinked - {e}, e.0, c);
    }
  }

  lemma NoneWaiting(unlinked: set<(Id, Id)>, q: Id)
    requires forall e :: e in unlinked ==> e.0 != q
    ensures Waiting(unlinked, q) == {} && NotUnder(unlinked, q) == unlinked
  {
  }

  /** Pending blocks are not children of a pending block. */
  lemma PendingApart(t: Tree, genesis: Id, unlinked: set<(Id, Id)>, pending: set<Id>, q: Id)
    requires TreeOk(t, genesis) && CountersOk(t, pending) && UnlinkedOk(t, unlinked) && q in pending && q in t
             && pending <= t.Keys
    ensures Waiting(unlinked, q) !! pending && Waiting(unlinked, q) <= t.Keys
    ensures t[q].nChainTx == 0 && Linked(t, q) != 0
  {
    forall c | c in Waiting(unlinked, q)
      ensures c !in pending && c in t
    {
      WaitingIs(unlinked, q, c);
      var e := (q, c);
      assert e in unlinked;
      assert c in t && t[c].prev == At(q);
    }
  }

  class Chainstate {
    const genesis: Id
    const valid: Id -> bool
    var blocks: Tree
    var candidates: set<Id>
    var unlinked: set<(Id, Id)>
    var chain: seq<Id>
    var nBlockSequenceId: nat
    ghost var best: Link

    ghost predicate Linking(pending: set<Id>)
      reads this
    {
      && TreeOk(blocks, genesis) && CountersOk(blocks, pending) && UnlinkedOk(blocks, unlinked)
      && Numbered(blocks, nBlockSequenceId)
    }

    ghost predicate Choosing()
      reads this
    {
      && ChainOk(blocks, valid, chain) && FlagsOk(blocks, valid) && CandidatesOk(blocks, valid, candidates, chain, best)
      && Neat(blocks, candidates, chain)
    }

    /** What holds at every step. */
    ghost predicate Sound()
      reads this
    {
      AllOk(blocks, genesis, valid, candidates, unlinked, chain, best) && Numbered(blocks, nBlockSequenceId)
    }

    /** What holds but while candidates are being pruned. */
    ghost predicate Valid()
      reads this
    {
      Sound() && Neat(blocks, candidates, chain)
    }

    /** The run-time check of the block index succeeds. */
    ghost predicate CheckBlockIndex()
      reads this
    {
      BestChain.CheckBlockIndex(blocks, genesis, candidates, unlinked, chain)
    }

    constructor (genesis: Id, valid: Id -> bool)
      ensures Valid() && this.genesis == genesis && this.valid == valid
      ensures blocks == map[] && candidates == {} && unlinked == {} && chain == []
    {
      this.genesis, this.valid := genesis, valid;
      blocks, candidates, unlinked, chain, nBlockSequenceId, best := map[], {}, {}, [], 1, NoBlock;
    }

    /** A header whose checks passed enters the tree; `proof` is its work. */
    method AddToBlockIndex(b: Id, prev: Link, proof: nat)
      requires Valid() && proof > 0 && if prev.At? then prev.id in blocks else b == genesis
      modifies this`blocks, this`best
      ensures Valid()
      ensures blocks == if b in old(blocks) then old(blocks) else Grown(old(blocks), b, prev, proof)
      ensures b in blocks && forall x :: x in old(blocks) ==> x in blocks && blocks[x] == old(blocks)[x]
      ensures b !in old(blocks) ==>
                && blocks[b].prev == prev && !blocks[b].haveData && !Failed(blocks[b])
                && blocks[b].height == (if prev.At? then old(blocks)[prev.id].height + 1 else 0)
                && blocks[b].chainWork == (if prev.At? then old(blocks)[prev.id].chainWork else 0) + proof
      ensures old(CheckBlockIndex()) ==> (CheckBlockIndex() <==> chain != [] || |blocks| <= 1)
    {
      hide TreeOk, CountersOk, UnlinkedOk, ChainOk, FlagsOk, CandidatesOk, Grown, Neat, BestChain.CheckBlockIndex;
      hide Numbered;
      Settle();
      EmptyCheck(blocks, genesis, candidates, unlinked, chain);
      if b in blocks {
        return;
      }
      GrownTree(blocks, genesis, unlinked, b, prev, proof);
      GrownChain(blocks, genesis, valid, candidates, chain, best, b, prev, proof);
      GrownNeat(blocks, candidates, chain, b, prev, proof);
      GrownNumbered(blocks, b, prev, proof, nBlockSequenceId);
      GrownIs(blocks, b, prev, proof);
      var pindexNew := NewIndex(b, prev, proof);
      blocks := blocks[b := pindexNew];
      EmptyCheck(blocks, genesis, candidates, unlinked, chain);
      Recheck();
    }

    /** Where the check succeeds, the tip is the best block for the record. */
    ghost method Settle()
      requires Valid()
      modifies this`best
      ensures Valid() && (chain != [] && CheckBlockIndex() ==> best == At(Tip(chain)))
    {
      hide AllOk, Neat, Numbered, BestChain.CheckBlockIndex;
      if chain != [] && CheckBlockIndex() {
        CheckSettles(blocks, genesis, valid, candidates, unlinked, chain, best);
        best := At(Tip(chain));
      }
    }

    lemma Recheck()
      requires Valid()
      ensures chain != [] && best == At(Tip(chain)) ==> CheckBlockIndex()
    {
      hide AllOk, Neat, Numbered, BestChain.CheckBlockIndex;
      if chain != [] && best == At(Tip(chain)) {
        CheckHolds(blocks, genesis, valid, candidates, unlinked, chain);
      }
    }

    method NewIndex(b: Id, prev: Link, proof: nat) returns (pindexNew: Block)
      requires prev.At? ==> prev.id in blocks
      ensures blocks[b := pindexNew] == Grown(blocks, b, prev, proof)
    {
      pindexNew := Block(prev, 0, 0, 0, 0, 0, false, false, false);
      if prev.At? {
        pindexNew := pindexNew.(height := blocks[prev.id].height + 1);
      }
      pindexNew := pindexNew.(chainWork := (if prev.At? then blocks[prev.id].chainWork else 0) + proof);
    }

    /** The data of a block arrived; descendants that were waiting for it are linked too. */
    method ReceivedBlockTransactions(b: Id, nTx: nat)
      requires Valid() && b in blocks && !blocks[b].haveData && !Failed(blocks[b]) && nTx > 0
      modifies this`blocks, this`candidates, this`unlinked, this`nBlockSequenceId, this`best
      ensures Valid()
      ensures SameData(Received(old(blocks), b, nTx), blocks)
      ensures b in blocks && blocks[b].haveData && blocks[b].nTx == nTx
      ensures Arrived(old(blocks), blocks, old(nBlockSequenceId))
      ensures old(CheckBlockIndex()) ==> CheckBlockIndex()
    {
      hide TreeOk, CountersOk, UnlinkedOk, ChainOk, FlagsOk, CandidatesOk, SameData, SameShape, Counted, Waiting,
          NotUnder;
      hide Less, NoDuplicates, Members, Neat, Numbered, Arrived, BestChain.CheckBlockIndex;
      Settle();
      EmptyCheck(blocks, genesis, candidates, unlinked, chain);
      ReceivedNeat(blocks, candidates, chain, b, nTx);
      ReceivedLinks(blocks, genesis, unlinked, b, nTx);
      NoData(blocks, b);
      ReceivedNumbered(blocks, b, nTx, nBlockSequenceId);
      ReceivedChain(blocks, genesis, valid, candidates, chain, best, b, nTx);
      ghost var t := Received(blocks, b, nTx);
      var wasLinked := blocks[b].prev.NoBlock?
          || (blocks[b].prev.id in blocks && blocks[blocks[b].prev.id].nChainTx != 0);
      blocks := blocks[b := blocks[b].(nTx := nTx, nChainTx := 0, haveData := true)];
      SameDataRefl(t);
      SameSize(old(blocks), t);
      ghost var settled := best;
      if wasLinked {
        var queue := [b];
        Single(b);
        while queue != []
          invariant Linking(Members(queue)) && Choosing() && NoDuplicates(queue)
          invariant Members(queue) <= blocks.Keys && SameData(t, blocks)
          invariant chain == old(chain) && best == settled
          invariant Arrived(old(blocks), blocks, old(nBlockSequenceId)) && old(nBlockSequenceId) <= nBlockSequenceId
          decreases |queue| + |unlinked|
        {
          ghost var before, given := blocks, nBlockSequenceId;
          queue := LinkFirst(queue, t);
          ArrivedAgain(old(blocks), before, blocks, old(nBlockSequenceId), given);
        }
        EmptyMembers();
      } else if !Failed(blocks[blocks[b].prev.id]) {
        unlinked := unlinked + {(blocks[b].prev.id, b)};
      }
      SameSize(t, blocks);
      DataThere(t, blocks, b);
      EmptyCheck(blocks, genesis, candidates, unlinked, chain);
      Recheck();
    }

    /** One round of the loop that links received blocks. */
    method LinkFirst(queue: seq<Id>, ghost t: Tree) returns (rest: seq<Id>)
      requires Linking(Members(queue)) && Choosing() && NoDuplicates(queue) && queue != []
      requires Members(queue) <= blocks.Keys && SameData(t, blocks)
      modifies this`blocks, this`candidates, this`unlinked, this`nBlockSequenceId
      ensures Linking(Members(rest)) && Choosing() && NoDuplicates(rest)
      ensures Members(rest) <= blocks.Keys && SameData(t, blocks)
      ensures Arrived(old(blocks), blocks, old(nBlockSequenceId)) && nBlockSequenceId == old(nBlockSequenceId) + 1
      ensures |rest| + |unlinked| < |queue| + old(|unlinked|)
    {
      hide TreeOk, CountersOk, UnlinkedOk, ChainOk, FlagsOk, CandidatesOk, SameData, SameShape, Waiting, NotUnder, Less;
      hide NoDuplicates, NotBelowTip, Linked, Members, Neat, Numbered, Arrived;
      var pindex := queue[0];
      PopFront(queue);
      FirstIsMember(queue);
      LinkStep(blocks, genesis, valid, unlinked, candidates, chain, best, Members(queue), pindex, nBlockSequenceId, t);
      PendingApart(blocks, genesis, unlinked, Members(queue), pindex);
      CountedNumbered(blocks, genesis, Members(queue), pindex, nBlockSequenceId);
      Link(pindex);
      rest := MoveWaiting(pindex, queue[1..]);
    }

    /** Set the counters of a block whose parent is linked; it may be a better tip. */
    method Link(pindex: Id)
      requires pindex in blocks && Linked(blocks, pindex) != 0 && forall i :: 0 <= i < |chain| ==> chain[i] in blocks
      modifies this`blocks, this`candidates, this`nBlockSequenceId
      ensures blocks == Counted(old(blocks), pindex, old(nBlockSequenceId))
      ensures nBlockSequenceId == old(nBlockSequenceId) + 1
      ensures candidates == if NotBelowTip(blocks, pindex, chain) then old(candidates) + {pindex} else old(candidates)
    {
      hide Less;
      blocks := blocks[pindex := blocks[pindex].(nChainTx :=
        (if blocks[pindex].prev.At? then blocks[blocks[pindex].prev.id].nChainTx else 0) + blocks[pindex].nTx)];
      blocks := blocks[pindex := blocks[pindex].(sequenceId := nBlockSequenceId)];
      nBlockSequenceId := nBlockSequenceId + 1;
      if chain == [] || !Less(blocks, pindex, Tip(chain)) {
        candidates := candidates + {pindex};
      }
    }

    /** The blocks filed under `pindex` join the queue. */
    method MoveWaiting(pindex: Id, queue: seq<Id>) returns (rest: seq<Id>)
      requires NoDuplicates(queue) && Members(queue) !! Waiting(unlinked, pindex)
      modifies this`unlinked
      ensures NoDuplicates(rest) && Members(rest) == Members(queue) + Waiting(old(unlinked), pindex)
      ensures unlinked == NotUnder(old(unlinked), pindex)
      ensures |rest| + |unlinked| == |queue| + old(|unlinked|)
    {
      hide Waiting, NotUnder, NoDuplicates;
      rest := queue;
      while exists e :: e in unlinked && e.0 == pindex
        invariant NoDuplicates(rest) && Members(rest) !! Waiting(unlinked, pindex)
        invariant Members(rest) + Waiting(unlinked, pindex) == Members(queue) + Waiting(old(unlinked), pindex)
        invariant NotUnder(unlinked, pindex) == NotUnder(old(unlinked), pindex)
        invariant |rest| + |unlinked| == |queue| + old(|unlinked|)
        decreases |unlinked|
      {
        var e :| e in unlinked && e.0 == pindex;
        TakeWaiting(unlinked, e);
        assert e.1 !in rest by { assert e.1 !in Members(rest); }
        PushBack(rest, e.1);
        rest := rest + [e.1];
        unlinked := unlinked - {e};
      }
      NoneWaiting(unlinked, pindex);
    }

    // ---------------------------------------------------------------- choosing a tip

    /** Walk from a candidate to the active chain; returns the first block that cannot be used. */
    method CheckPath(pindexNew: Id) returns (pindexBad: Link)
      requires Valid() && pindexNew in candidates
      ensures pindexBad.NoBlock? ==> Clean(blocks, pindexNew)
      ensures pindexBad.At? ==> && pindexBad.id in blocks && Failed(blocks[pindexBad.id])
                                && IsAncestor(blocks, pindexBad.id, pindexNew)
    {
      hide TreeOk, CountersOk, UnlinkedOk, ChainOk, FlagsOk, Neat, Numbered;
      var pindexTest := At(pindexNew);
      while pindexTest.At? && !Contains(blocks, chain, pindexTest.id)
        invariant pindexTest.At? ==>
                    && pindexTest.id in blocks && blocks[pindexTest.id].nChainTx != 0
                    && IsAncestor(blocks, pindexTest.id, pindexNew)
                    && (Clean(blocks, pindexTest.id) ==> Clean(blocks, pindexNew))
        invariant pindexTest.NoBlock? ==> Clean(blocks, pindexNew)
        decreases if pindexTest.At? then blocks[pindexTest.id].height + 1 else 0
      {
        LinkedParent(blocks, genesis, pindexTest.id);
        var fFailedChain := Failed(blocks[pindexTest.id]);
        var fMissingData := !blocks[pindexTest.id].haveData;
        if fFailedChain || fMissingData {
          return pindexTest;
        }
        ParentIsAncestor(blocks, pindexTest.id, pindexNew);
        pindexTest := blocks[pindexTest.id].prev;
      }
      if pindexTest.At? {
        ActiveIsClean(blocks, valid, chain, pindexTest.id);
      }
      return NoBlock;
    }

    /** Take a candidate and the blocks down to the failed `pindexTest` out of the candidate set. */
    method Discard(pindexNew: Id, pindexTest: Id)
      requires Valid() && pindexNew in candidates
      requires pindexTest in blocks && Failed(blocks[pindexTest]) && IsAncestor(blocks, pindexTest, pindexNew)
      modifies this`blocks, this`candidates
      ensures Valid() && OnlyFlags(old(blocks), blocks) && SameInvalid(old(blocks), blocks)
              && SameClean(old(blocks), blocks)
      ensures candidates <= old(candidates) && pindexNew !in candidates
      ensures forall c :: c in old(candidates) && c !in candidates ==> !Clean(old(blocks), c)
    {
      hide TreeOk, CountersOk, UnlinkedOk, ChainOk, FlagsOk, CandidatesOk, AllValid, Clean, OnlyFlags, SameInvalid,
          SameClean;
      hide SameShape, Neat, Numbered;
      ghost var t := blocks;
      var pindexFailed := pindexNew;
      FlagsRefl(t);
      LinkedCandidate(t, genesis, valid, candidates, unlinked, chain, best, pindexNew);
      while pindexTest != pindexFailed
        invariant AllOk(blocks, genesis, valid, candidates, unlinked, chain, best)
        invariant OnlyFlags(t, blocks) && SameInvalid(t, blocks) && SameClean(t, blocks)
        invariant pindexFailed in blocks && blocks[pindexFailed].nChainTx != 0
        invariant IsAncestor(t, pindexTest, pindexFailed)
        invariant candidates <= old(candidates) && (pindexNew in candidates ==> pindexFailed == pindexNew)
        invariant forall c :: c in old(candidates) && c !in candidates ==> !Clean(t, c)
        decreases Height(t, pindexFailed)
      {
        DiscardStep(t, blocks, genesis, valid, candidates, unlinked, chain, best, pindexTest, pindexFailed);
        blocks := blocks[pindexFailed := blocks[pindexFailed].(failedChild := true)];
        candidates := candidates - {pindexFailed};
        pindexFailed := blocks[pindexFailed].prev.id;
      }
      LastDiscard(t, blocks, pindexTest);
      EraseStep(blocks, genesis, valid, candidates, unlinked, chain, best, pindexTest);
      candidates := candidates - {pindexTest};
      FlagsNeat(t, blocks, old(candidates), candidates, chain);
      FlagsNumbered(t, blocks, nBlockSequenceId);
    }

    /** The best candidate with no failed block on its path; others found on the way are dropped. */
    method FindMostWorkChain() returns (pindexMostWork: Link)
      requires Valid()
      modifies this`blocks, this`candidates
      ensures Valid() && OnlyFlags(old(blocks), blocks) && SameInvalid(old(blocks), blocks)
              && SameClean(old(blocks), blocks)
      ensures candidates <= old(candidates)
      ensures forall c :: c in old(candidates) && c !in candidates ==> !Clean(old(blocks), c)
      ensures pindexMostWork.NoBlock? ==> candidates == {}
      ensures pindexMostWork.At? ==> Usable(pindexMostWork.id)
    {
      hide AllOk, Clean, OnlyFlags, SameInvalid, SameClean, Less, Neat, Numbered;
      FlagsRefl(blocks);
      while true
        invariant Valid() && OnlyFlags(old(blocks), blocks) && SameInvalid(old(blocks), blocks)
                  && SameClean(old(blocks), blocks)
        invariant candidates <= old(candidates)
        invariant forall c :: c in old(candidates) && c !in candidates ==> !Clean(old(blocks), c)
        decreases candidates
      {
        if candidates == {} {
          return NoBlock;
        }
        CandidatesKnown(blocks, genesis, valid, candidates, unlinked, chain, best);
        ghost var greatest := MaxExists(blocks, candidates);
        var pindexNew :| pindexNew in candidates && IsMax(blocks, candidates, pindexNew);
        var pindexBad := CheckPath(pindexNew);
        if pindexBad.NoBlock? {
          return At(pindexNew);
        }
        label before:
        Discard(pindexNew, pindexBad.id);
        DiscardedMore(old(blocks), old@before(blocks), blocks, old(candidates), old@before(candidates), candidates);
      }
      assert false;
    }

    /** The greatest candidate, with nothing on its path known to have failed. */
    ghost predicate Usable(c: Id)
      reads this
    {
      && (forall d :: d in candidates ==> d in blocks)
      && IsMax(blocks, candidates, c) && Good(blocks, c)
    }

    function TipLink(): Link
      reads this
    {
      if chain == [] then NoBlock else At(Tip(chain))
    }

    // ---------------------------------------------------------------- switching to it

    /** The highest block of the active chain that is an ancestor of `b`. */
    method FindFork(b: Id) returns (pindexFork: Link)
      requires Valid() && b in blocks
      ensures Common(blocks, chain, b) <= |chain| && pindexFork == ForkOf(blocks, chain, b)
    {
      hide CountersOk, UnlinkedOk, FlagsOk, CandidatesOk, ChainOk, TreeOk, Contains, Neat, Numbered;
      var pindex := At(b);
      if blocks[b].height > |chain| - 1 {
        if chain == [] {
          pindex := NoBlock;
        } else {
          pindex := At(Ancestor(blocks, b, |chain| - 1));
        }
        CommonBelow(blocks, genesis, chain, b);
      }
      while pindex.At? && !Contains(blocks, chain, pindex.id)
        invariant pindex.At? ==> pindex.id in blocks && Common(blocks, chain, pindex.id) == Common(blocks, chain, b)
        invariant pindex.NoBlock? ==> Common(blocks, chain, b) == 0
        decreases if pindex.At? then Height(blocks, pindex.id) + 1 else 0
      {
        CommonNext(blocks, genesis, chain, pindex.id);
        pindex := blocks[pindex.id].prev;
      }
      CommonIs(blocks, genesis, valid, chain, b);
      if pindex.At? {
        CommonHere(blocks, chain, pindex.id);
      }
      return pindex;
    }

    /** Undo the tip; false on a system error. */
    method DisconnectTip() returns (ok: bool)
      requires Valid() && chain != []
      modifies this`chain
      ensures Valid() && chain == if ok then old(chain)[..|old(chain)| - 1] else old(chain)
    {
      hide AllOk, Neat, Numbered;
      ok := *;
      if ok {
        DisconnectStep(blocks, genesis, valid, candidates, unlinked, chain, best);
        DisconnectNeat(blocks, genesis, valid, candidates, unlinked, chain, best);
        chain := chain[..|chain| - 1];
      }
    }

    /** Connect a block on top of the tip, unless it breaks the rules or a system error occurs. */
    method ConnectTip(pindexNew: Id) returns (r: Outcome)
      requires Valid() && Extends(blocks, chain, pindexNew)
      modifies this`blocks, this`candidates, this`chain, this`best
      ensures Sound() && (r != Connected ==> Valid()) && (r == Connected || r == Invalid || r == SystemError)
      ensures r == Connected ==>
                valid(pindexNew) && chain == old(chain) + [pindexNew] && unchanged(`blocks) && unchanged(`candidates)
      ensures r == Invalid ==> !valid(pindexNew) && unchanged(`chain) && blocks == MarkValid(old(blocks), pindexNew)
                               && candidates == old(candidates) - {pindexNew}
      ensures r == SystemError ==> unchanged(this)
    {
      hide AllOk, Better, Neat, Numbered;
      var fSystem: bool := *;
      if fSystem {
        return SystemError;
      }
      if !valid(pindexNew) {
        MarkStep(blocks, MarkValid(blocks, pindexNew), genesis, valid, candidates, unlinked, chain, best, pindexNew);
        FlagsNeat(blocks, MarkValid(blocks, pindexNew), candidates, candidates - {pindexNew}, chain);
        FlagsNumbered(blocks, MarkValid(blocks, pindexNew), nBlockSequenceId);
        blocks := blocks[pindexNew := blocks[pindexNew].(failedValid := true)];
        candidates := candidates - {pindexNew};
        return Invalid;
      }
      ConnectStep(blocks, genesis, valid, candidates, unlinked, chain, best, pindexNew);
      chain := chain + [pindexNew];
      best := Better(blocks, best, pindexNew);
      return Connected;
    }

    /** Drop the candidates that sort below the tip, lowest first; at least one is left. */
    method PruneBlockIndexCandidates()
      requires Sound() && chain != []
      modifies this`candidates
      ensures Valid() && candidates != {} && Tip(chain) in blocks
      ensures forall c :: c in old(candidates) ==> c in blocks
      ensures candidates == Pruned(blocks, old(candidates), Tip(chain))
    {
      hide AllOk, Less, Numbered;
      PruneStep(blocks, genesis, valid, candidates, unlinked, chain, best);
      ghost var kept := Pruned(blocks, candidates, Tip(chain));
      while candidates != {}
        invariant kept <= candidates <= old(candidates)
        decreases candidates
      {
        ghost var least := MinExists(blocks, candidates);
        var it :| it in candidates && IsMin(blocks, candidates, it);
        PruneNext(blocks, old(candidates), candidates, Tip(chain), it);
        if !Less(blocks, it, Tip(chain)) {
          break;
        }
        candidates := candidates - {it};
      }
      assert candidates == kept;
    }

    /** Disconnect active blocks that are not on the path to `pindexMostWork`. */
    method DisconnectToFork(pindexMostWork: Id) returns (ok: bool, pindexFork: Link)
      requires Valid() && pindexMostWork in blocks
      modifies this`chain
      ensures Valid() && pindexFork == ForkOf(blocks, old(chain), pindexMostWork)
      ensures ok ==> |chain| == Common(blocks, old(chain), pindexMostWork) && OnPath(blocks, chain, pindexMostWork)
    {
      hide AllOk, OnPath, Common, ForkOf, Neat, Numbered;
      ghost var n := Common(blocks, chain, pindexMostWork);
      pindexFork := FindFork(pindexMostWork);
      ForkIs(blocks, genesis, valid, candidates, unlinked, chain, best, pindexMostWork);
      ok := DisconnectUntil(pindexFork, n);
    }

    method DisconnectUntil(pindexFork: Link, ghost n: nat) returns (ok: bool)
      requires Valid() && n <= |chain| && pindexFork == if n == 0 then NoBlock else At(chain[n - 1])
      modifies this`chain
      ensures Valid() && (ok ==> chain == old(chain)[..n])
    {
      hide AllOk, Neat, Numbered;
      ok := true;
      while chain != [] && At(Tip(chain)) != pindexFork
        invariant Valid() && n <= |chain| <= |old(chain)| && chain == old(chain)[..|chain|]
        decreases |chain|
      {
        ok := DisconnectTip();
        if !ok {
          return;
        }
      }
      if n > 0 {
        TipPosition(blocks, genesis, valid, candidates, unlinked, chain, best, n - 1);
      }
    }

    /** The blocks above nHeight up to nTargetHeight on the path to `pindexMostWork`, highest first. */
    method Collect(pindexMostWork: Id, nHeight: int, nTargetHeight: nat) returns (vpindexToConnect: seq<Id>)
      requires TreeOk(blocks, genesis) && pindexMostWork in blocks
      requires -1 <= nHeight <= nTargetHeight <= blocks[pindexMostWork].height
      ensures |vpindexToConnect| == nTargetHeight - nHeight
      ensures forall j ::
                0 <= j < |vpindexToConnect| ==>
                vpindexToConnect[j] == Ancestor(blocks, pindexMostWork, nTargetHeight - j)
    {
      hide TreeOk, Ancestor;
      vpindexToConnect := [];
      AncestorAt(blocks, genesis, pindexMostWork, nTargetHeight);
      var pindexIter := At(Ancestor(blocks, pindexMostWork, nTargetHeight));
      ghost var h: int := nTargetHeight;
      while pindexIter.At? && blocks[pindexIter.id].height != nHeight
        invariant nHeight <= h <= nTargetHeight && |vpindexToConnect| == nTargetHeight - h
        invariant h == -1 ==> pindexIter == NoBlock
        invariant h != -1 ==> pindexIter == At(Ancestor(blocks, pindexMostWork, h)) && pindexIter.id in blocks
        invariant h != -1 ==> blocks[pindexIter.id].height == h
        invariant forall j ::
                    0 <= j < |vpindexToConnect| ==>
                    vpindexToConnect[j] == Ancestor(blocks, pindexMostWork, nTargetHeight - j)
        decreases h
      {
        vpindexToConnect := vpindexToConnect + [pindexIter.id];
        AncestorAt(blocks, genesis, pindexMostWork, h);
        if h > 0 {
          AncestorAt(blocks, genesis, pindexMostWork, h - 1);
        }
        pindexIter := blocks[pindexIter.id].prev;
        h := h - 1;
      }
    }

    /** Connect these blocks, lowest first, until the tip beats the old one. */
    method ConnectBlocks(pindexMostWork: Id, vpindexToConnect: seq<Id>, nOldWork: int) returns (r: Outcome)
      requires Valid() && Usable(pindexMostWork) && OnPath(blocks, chain, pindexMostWork)
      requires |chain| + |vpindexToConnect| <= blocks[pindexMostWork].height + 1 && vpindexToConnect != []
      requires forall j :: 0 <= j < |vpindexToConnect| ==>
                 vpindexToConnect[j] == Ancestor(blocks, pindexMostWork, |chain| + |vpindexToConnect| - 1 - j)
      modifies this
      ensures Valid()
      ensures r == Connected || r == Improved ==>
                && blocks == old(blocks) && Usable(pindexMostWork) && OnPath(blocks, chain, pindexMostWork)
                && |chain| > |old(chain)|
      ensures r == Connected ==> |chain| == |old(chain)| + |vpindexToConnect|
      ensures r == Invalid ==>
                OneMoreInvalid(old(blocks), blocks) && (chain == [] ==> genesis in blocks && Failed(blocks[genesis]))
    {
      hide AllOk, OnPath, Extends, IsMax, Good, Ancestor, Neat, Numbered;
      var j := |vpindexToConnect|;
      ghost var n := |chain|;
      r := Connected;
      while j > 0
        invariant 0 <= j <= |vpindexToConnect| && |chain| == n + |vpindexToConnect| - j && r == Connected
        invariant Valid() && Usable(pindexMostWork) && OnPath(blocks, chain, pindexMostWork) && blocks == old(blocks)
      {
        j := j - 1;
        var pindexConnect := vpindexToConnect[j];
        assert pindexConnect == Ancestor(blocks, pindexMostWork, |chain|);
        StepReady(blocks, genesis, valid, candidates, unlinked, chain, best, pindexMostWork);
        r := ConnectTip(pindexConnect);
        if r == SystemError {
          return;
        }
        if r == Invalid {
          InvalidReady(old(blocks), genesis, chain, pindexConnect, blocks);
          return;
        }
        PruneBlockIndexCandidates();
        assert pindexConnect == Tip(chain);
        if blocks[Tip(chain)].chainWork > nOldWork {
          return Improved;
        }
      }
    }

    /** The data of a block was looked at and broke the rules: it never becomes part of the index. */
    method RejectBlock(b: Id)
      requires Valid() && b in blocks && !blocks[b].haveData && !valid(b)
      modifies this`blocks, this`best
      ensures Valid() && blocks == MarkValid(old(blocks), b)
      ensures old(CheckBlockIndex()) ==> CheckBlockIndex()
    {
      hide CountersOk, UnlinkedOk, FlagsOk, ChainOk, TreeOk, AllValid, Neat, Numbered, BestChain.CheckBlockIndex;
      Settle();
      EmptyCheck(blocks, genesis, candidates, unlinked, chain);
      NoData(blocks, b);
      MarkStep(blocks, MarkValid(blocks, b), genesis, valid, candidates, unlinked, chain, best, b);
      FlagsNeat(blocks, MarkValid(blocks, b), candidates, candidates, chain);
      FlagsNumbered(blocks, MarkValid(blocks, b), nBlockSequenceId);
      assert candidates - {b} == candidates;
      blocks := blocks[b := blocks[b].(failedValid := true)];
      SameKeys(old(blocks), blocks);
      EmptyCheck(blocks, genesis, candidates, unlinked, chain);
      Recheck();
    }

    /** One step towards `pindexMostWork`: it stops at a better tip, an invalid block or a system error. */
    method ActivateBestChainStep(pindexMostWork: Id) returns (ok: bool, fInvalidFound: bool)
      requires Valid() && Usable(pindexMostWork) && TipLink() != At(pindexMostWork)
      modifies this
      ensures Valid()
      ensures ok && !fInvalidFound ==>
                && blocks == old(blocks) && Usable(pindexMostWork) && OnPath(blocks, chain, pindexMostWork)
                && pindexMostWork in blocks && |chain| > Common(blocks, old(chain), pindexMostWork)
      ensures ok && fInvalidFound ==>
                OneMoreInvalid(old(blocks), blocks) && (chain == [] ==> genesis in blocks && Failed(blocks[genesis]))
    {
      hide AllOk, OnPath, IsMax, Good, Common, ForkOf, OneMoreInvalid, Ancestor, TreeOk, Neat, Numbered;
      fInvalidFound := false;
      StepAhead(blocks, genesis, valid, candidates, unlinked, chain, best, pindexMostWork);
      var nOldWork := if chain == [] then -1 else blocks[Tip(chain)].chainWork;
      ghost var n := Common(blocks, chain, pindexMostWork);
      var pindexFork;
      ok, pindexFork := DisconnectToFork(pindexMostWork);
      if !ok {
        return;
      }
      var nHeight := if pindexFork.At? then blocks[pindexFork.id].height else -1;
      var r := ConnectTowards(pindexMostWork, nHeight, nOldWork);
      ok, fInvalidFound := r != SystemError, r == Invalid;
    }

    /** Connect the path to `pindexMostWork` in batches of at most 32 blocks. */
    method ConnectTowards(pindexMostWork: Id, nForkHeight: int, nOldWork: int) returns (r: Outcome)
      requires Valid() && Usable(pindexMostWork) && OnPath(blocks, chain, pindexMostWork)
      requires |chain| == nForkHeight + 1 <= blocks[pindexMostWork].height
      modifies this
      ensures Valid()
      ensures r == Connected || r == Improved ==>
                blocks == old(blocks) && Usable(pindexMostWork) && OnPath(blocks, chain, pindexMostWork)
                  && |chain| > |old(chain)|
      ensures r == Invalid ==>
                OneMoreInvalid(old(blocks), blocks) && (chain == [] ==> genesis in blocks && Failed(blocks[genesis]))
    {
      hide AllOk, OnPath, IsMax, Good, OneMoreInvalid, Ancestor, TreeOk, Neat, Numbered;
      PathKnown(blocks, chain, pindexMostWork);
      var nHeight := nForkHeight;
      r := Connected;
      while nHeight != blocks[pindexMostWork].height
        invariant Valid() && blocks == old(blocks) && Usable(pindexMostWork) && OnPath(blocks, chain, pindexMostWork)
        invariant pindexMostWork in blocks
                  && |old(chain)| <= |chain| == nHeight + 1 <= blocks[pindexMostWork].height + 1
        decreases blocks[pindexMostWork].height - nHeight
      {
        var nTargetHeight := if nHeight + 32 < blocks[pindexMostWork].height then nHeight + 32
            else blocks[pindexMostWork].height;
        OkTree(blocks, genesis, valid, candidates, unlinked, chain, best);
        var vpindexToConnect := Collect(pindexMostWork, nHeight, nTargetHeight);
        nHeight := nTargetHeight;
        r := ConnectBlocks(pindexMostWork, vpindexToConnect, nOldWork);
        if r != Connected {
          return;
        }
      }
      r := Connected;
    }

    /** Every other block that is received up to the root and has no failed block on its path has less work
        than the tip, or as much and was linked later. */
    ghost predicate AtBest()
      reads this
    {
      FirstSeen(blocks, chain)
    }

    /** Make the best chain active, in steps.  Ends always; a true result without shutdown means the
        best chain is active. */
    method ActivateBestChain() returns (ok: bool, fShutdown: bool)
      requires Valid()
      modifies this
      ensures Valid()
      ensures ok ==> blocks.Keys == old(blocks.Keys) && (old(chain) != [] ==> chain != [])
      ensures ok && !fShutdown ==> AtBest()
      ensures ok && !fShutdown ==> (CheckBlockIndex() <==> chain != [] || |blocks| <= 1)
    {
      hide AllOk, OnPath, Common, OneMoreInvalid, IsMax, Good, Unfailed, OnlyFlags, SameInvalid, SameClean, Neat;
      hide BestChain.CheckBlockIndex, Numbered;
      var pindexMostWork := NoBlock;
      fShutdown := false;
      var fAgain := true;
      ActiveRoot(blocks, genesis, valid, candidates, unlinked, chain, best);
      while fAgain
        invariant Valid() && blocks.Keys == old(blocks.Keys) && (old(chain) != [] ==> chain != [])
        invariant fAgain && pindexMostWork.At? ==> Usable(pindexMostWork.id) && TipLink() != pindexMostWork
        invariant !fAgain ==> AtBest() && (CheckBlockIndex() <==> chain != [] || |blocks| <= 1)
        decreases if fAgain then 1 else 0, Unfailed(blocks), if pindexMostWork.NoBlock? then 1 else 0,
                  Distance(blocks, chain, pindexMostWork)
      {
        fShutdown := *;
        if fShutdown {
          return true, true;
        }
        ghost var blocks0, chain0, most0 := blocks, chain, pindexMostWork;
        if pindexMostWork.NoBlock? {
          pindexMostWork := FindMostWorkChain();
          SameUnfailed(blocks0, blocks);
        }
        if pindexMostWork.NoBlock? || pindexMostWork == TipLink() {
          DoneNow(blocks, genesis, valid, candidates, unlinked, chain, best, pindexMostWork, nBlockSequenceId);
          return true, false;
        }
        ghost var blocks1 := blocks;
        var stepped, fInvalidFound := ActivateBestChainStep(pindexMostWork.id);
        if !stepped {
          return false, false;
        }
        if fInvalidFound {
          FewerUnfailed(blocks1, blocks);
          if chain == [] {
            RootFailed(blocks, genesis, valid, candidates, unlinked, chain, best);
            EmptyCheck(blocks, genesis, candidates, unlinked, chain);
          }
          pindexMostWork := NoBlock;
        } else {
          Closer(blocks, genesis, valid, candidates, unlinked, chain0, chain, best, pindexMostWork.id);
          if TipLink() == pindexMostWork {
            DoneNow(blocks, genesis, valid, candidates, unlinked, chain, best, pindexMostWork, nBlockSequenceId);
          }
        }
        fAgain := TipLink() != pindexMostWork;
      }
      return true, false;
    }
  }

  /** How much of the path to `b` is not active yet. */
  ghost function Distance(t: Tree, chain: seq<Id>, b: Link): int {
    if b.At? && b.id in t then t[b.id].height + 1 - Common(t, chain, b.id) else 0
  }

  lemma SameUnfailed(t: Tree, t': Tree)
    requires SameInvalid(t, t')
    ensures Unfailed(t') == Unfailed(t) && t'.Keys == t.Keys
  {
  }

  lemma FewerUnfailed(t: Tree, t': Tree)
    requires OneMoreInvalid(t, t')
    ensures Unfailed(t') < Unfailed(t) && t'.Keys == t.Keys
  {
    var x :| x in t && !t[x].failedValid && t' == MarkValid(t, x);
    MarkedShrinks(t, x);
  }

  /** The two ways to be done: no candidates at all, or the greatest one is the tip. */
  lemma DoneNow(t: Tree, genesis: Id, valid: Id -> bool, candidates: set<Id>, unlinked: set<(Id, Id)>, chain: seq<Id>,
      best: Link, most: Link, next: nat)
    requires AllOk(t, genesis, valid, candidates, unlinked, chain, best) && Neat(t, candidates, chain)
             && Numbered(t, next)
    requires most.NoBlock? ==> candidates == {}
    requires most.At? ==>
               chain != [] && Tip(chain) == most.id && (forall d :: d in candidates ==> d in t)
               && IsMax(t, candidates, most.id)
    ensures FirstSeen(t, chain)
    ensures BestChain.CheckBlockIndex(t, genesis, candidates, unlinked, chain) <==> chain != [] || |t| <= 1
  {
    hide TreeOk, CountersOk, UnlinkedOk, FlagsOk, ChainOk, Less, AllValid, Clean, Neat, BestChain.CheckBlockIndex;
    hide Numbered, FirstSeen;
    EmptyCheck(t, genesis, candidates, unlinked, chain);
    if most.At? {
      TipSettles(t, genesis, valid, candidates, unlinked, chain, best);
      CheckHolds(t, genesis, valid, candidates, unlinked, chain);
    }
    forall b | Good(t, b)
      ensures chain != [] && Tip(chain) in t && !Less(t, Tip(chain), b)
    {
      if most.At? {
        TipIsBest(t, genesis, valid, candidates, unlinked, chain, best, b);
      }
    }
    GreatestIsFirst(t, valid, chain, next);
  }

  /** An invalid root leaves nothing to activate. */
  lemma RootFailed(t: Tree, genesis: Id, valid: Id -> bool, candidates: set<Id>, unlinked: set<(Id, Id)>,
      chain: seq<Id>, best: Link)
    requires AllOk(t, genesis, valid, candidates, unlinked, chain, best) && genesis in t && Failed(t[genesis])
    ensures forall b {:trigger Good(t, b)} :: !Good(t, b)
    ensures !valid(genesis)
  {
    hide CountersOk, UnlinkedOk, FlagsOk, ChainOk, CandidatesOk, Clean;
    RootKnown(t, genesis, genesis);
    if valid(genesis) {
      ValidRoot(t, genesis, valid);
    }
    forall b
      ensures !Good(t, b)
    {
      if b in t {
        RootBelowAll(t, genesis, b);
        FailedBelow(t, genesis, b);
      }
    }
  }

  lemma ActiveRoot(t: Tree, genesis: Id, valid: Id -> bool, candidates: set<Id>, unlinked: set<(Id, Id)>,
      chain: seq<Id>, best: Link)
    requires AllOk(t, genesis, valid, candidates, unlinked, chain, best)
    ensures chain != [] ==> valid(genesis)
  {
    hide TreeOk, CountersOk, UnlinkedOk, FlagsOk, ChainOk, CandidatesOk;
    if chain != [] {
      RootIsActive(t, genesis, valid, chain);
    }
  }

  /** Without an active chain the check only looks at the number of blocks. */
  lemma EmptyCheck(t: Tree, genesis: Id, candidates: set<Id>, unlinked: set<(Id, Id)>, chain: seq<Id>)
    ensures chain == [] ==> (BestChain.CheckBlockIndex(t, genesis, candidates, unlinked, chain) <==> |t| <= 1)
  {
  }

  lemma SameKeys(t: Tree, t': Tree)
    requires t'.Keys == t.Keys
    ensures |t'| == |t|
  {
    assert |t'| == |t'.Keys| && |t| == |t.Keys|;
  }

  lemma SameSize(t: Tree, t': Tree)
    requires SameData(t, t') || SameShape(t, t')
    ensures |t'| == |t|
  {
    SameKeys(t, t');
  }

  lemma GrownNeat(t: Tree, candidates: set<Id>, chain: seq<Id>, b: Id, prev: Link, proof: nat)
    requires Neat(t, candidates, chain) && b !in t && (prev.At? ==> prev.id in t)
    ensures Neat(Grown(t, b, prev, proof), candidates, chain)
  {
    hide Neat;
    NeatStays(t, Grown(t, b, prev, proof), candidates, candidates, chain);
  }

  lemma ReceivedNeat(t: Tree, candidates: set<Id>, chain: seq<Id>, b: Id, nTx: nat)
    requires Neat(t, candidates, chain) && b in t
    ensures Neat(Received(t, b, nTx), candidates, chain) && SameShape(t, Received(t, b, nTx))
  {
    hide Neat;
    NeatStays(t, Received(t, b, nTx), candidates, candidates, chain);
  }

  lemma DisconnectNeat(t: Tree, genesis: Id, valid: Id -> bool, candidates: set<Id>, unlinked: set<(Id, Id)>,
      chain: seq<Id>, best: Link)
    requires AllOk(t, genesis, valid, candidates, unlinked, chain, best) && Neat(t, candidates, chain) && chain != []
    ensures Neat(t, candidates, chain[..|chain| - 1])
  {
    hide TreeOk, CountersOk, UnlinkedOk, FlagsOk, ChainOk, CandidatesOk, Neat;
    ShortenedNeat(t, genesis, valid, candidates, chain);
  }

  lemma Closer(t: Tree, genesis: Id, valid: Id -> bool, candidates: set<Id>, unlinked: set<(Id, Id)>, chain: seq<Id>,
      chain': seq<Id>, best: Link, b: Id)
    requires AllOk(t, genesis, valid, candidates, unlinked, chain', best) && OnPath(t, chain', b)
             && |chain'| > Common(t, chain, b)
    ensures 0 <= Distance(t, chain', At(b)) < Distance(t, chain, At(b))
  {
    hide CountersOk, UnlinkedOk, FlagsOk, ChainOk, CandidatesOk, TreeOk, Common;
    OnPathCommon(t, genesis, chain', b);
  }

  lemma OkTree(t: Tree, genesis: Id, valid: Id -> bool, candidates: set<Id>, unlinked: set<(Id, Id)>, chain: seq<Id>,
      best: Link)
    requires AllOk(t, genesis, valid, candidates, unlinked, chain, best)
    ensures TreeOk(t, genesis)
  {
  }

  lemma StepAhead(t: Tree, genesis: Id, valid: Id -> bool, candidates: set<Id>, unlinked: set<(Id, Id)>, chain: seq<Id>,
      best: Link, b: Id)
    requires AllOk(t, genesis, valid, candidates, unlinked, chain, best)
    requires (forall d :: d in candidates ==> d in t) && IsMax(t, candidates, b) && (chain == [] || Tip(chain) != b)
    ensures b in t && Common(t, chain, b) <= t[b].height
    ensures forall i :: 0 <= i < |chain| ==> chain[i] in t
    ensures match ForkOf(t, chain, b)
            case NoBlock => Common(t, chain, b) == 0
            case At(f) => f in t && t[f].height == Common(t, chain, b) - 1
  {
    GreatestIsAhead(t, genesis, valid, candidates, unlinked, chain, best, b);
    ForkIs(t, genesis, valid, candidates, unlinked, chain, best, b);
    hide UnlinkedOk, CandidatesOk, FlagsOk, CountersOk, TreeOk, IsMax, Common;
  }

  /** Exactly one more block is known to be invalid itself. */
  ghost predicate OneMoreInvalid(t: Tree, t': Tree) {
    exists x :: x in t && !t[x].failedValid && t' == MarkValid(t, x)
  }

  /** What ConnectBlocks needs to know before it connects the next block of the path. */
  lemma StepReady(t: Tree, genesis: Id, valid: Id -> bool, candidates: set<Id>, unlinked: set<(Id, Id)>, chain: seq<Id>,
      best: Link, b: Id)
    requires AllOk(t, genesis, valid, candidates, unlinked, chain, best) && OnPath(t, chain, b)
             && |chain| <= t[b].height
    requires (forall d :: d in candidates ==> d in t) && IsMax(t, candidates, b) && Good(t, b)
    ensures var x := Ancestor(t, b, |chain|);
            && Extends(t, chain, x) && OnPath(t, chain + [x], b) && x in t && !Failed(t[x])
            && IsMax(t, Pruned(t, candidates, x), b)
    ensures TreeOk(t, genesis)
  {
    hide UnlinkedOk, CandidatesOk, FlagsOk, ChainOk, CountersOk, TreeOk, OnPath, Ancestor, IsMax, Clean, Pruned;
    PathKnown(t, chain, b);
    NextOnPath(t, genesis, chain, b);
    var x := Ancestor(t, b, |chain|);
    CleanAncestor(t, x, b);
    CleanSelf(t, x);
    GreatestStays(t, genesis, candidates, b, x);
  }

  lemma PathKnown(t: Tree, chain: seq<Id>, b: Id)
    requires OnPath(t, chain, b)
    ensures b in t
  {
  }

  lemma CleanSelf(t: Tree, b: Id)
    requires Clean(t, b)
    ensures b in t && !Failed(t[b])
  {
  }

  lemma InvalidReady(t: Tree, genesis: Id, chain: seq<Id>, x: Id, t': Tree)
    requires TreeOk(t, genesis) && x in t && !Failed(t[x]) && Extends(t, chain, x) && t' == MarkValid(t, x)
    ensures OneMoreInvalid(t, t') && (chain == [] ==> genesis in t' && Failed(t'[genesis]))
  {
    assert x in t && !t[x].failedValid && t' == MarkValid(t, x);
  }

  lemma ForkIs(t: Tree, genesis: Id, valid: Id -> bool, candidates: set<Id>, unlinked: set<(Id, Id)>, chain: seq<Id>,
      best: Link, b: Id)
    requires AllOk(t, genesis, valid, candidates, unlinked, chain, best) && b in t
    ensures var n := Common(t, chain, b);
            && n <= |chain| && OnPath(t, chain[..n], b)
            && ForkOf(t, chain, b) == if n == 0 then NoBlock else At(chain[n - 1])
  {
    hide UnlinkedOk, CandidatesOk, FlagsOk, ChainOk, CountersOk, TreeOk, OnPath, Common;
    CutBack(t, genesis, valid, chain, b, Common(t, chain, b));
  }

  lemma TipPosition(t: Tree, genesis: Id, valid: Id -> bool, candidates: set<Id>, unlinked: set<(Id, Id)>,
      chain: seq<Id>, best: Link, i: nat)
    requires AllOk(t, genesis, valid, candidates, unlinked, chain, best) && i < |chain| && chain[i] == Tip(chain)
    ensures i == |chain| - 1
  {
    hide TreeOk, CountersOk, UnlinkedOk, CandidatesOk, FlagsOk, ChainOk;
    ChainDistinct(t, valid, chain, i, |chain| - 1);
  }

  datatype Outcome = Connected | Improved | Invalid | SystemError

  predicate IsMin(t: Tree, s: set<Id>, c: Id)
    requires forall d :: d in s ==> d in t
  {
    c in s && forall d :: d in s ==> !Less(t, d, c)
  }

  lemma {:induction false} MinExists(t: Tree, s: set<Id>) returns (c: Id)
    requires s != {} && forall d :: d in s ==> d in t
    ensures IsMin(t, s, c)
  {
    c :| c in s;
    var rest := s - {c};
    assert forall e :: e in s ==> e == c || e in rest;
    if rest != {} {
      var d := MinExists(t, rest);
      if Less(t, d, c) {
        c := d;
      }
    }
  }

  lemma PruneNext(t: Tree, all: set<Id>, candidates: set<Id>, tip: Id, it: Id)
    requires tip in t && (forall c :: c in all ==> c in t) && Pruned(t, all, tip) <= candidates <= all
    requires it in candidates && IsMin(t, candidates, it)
    ensures !Less(t, it, tip) ==> candidates == Pruned(t, all, tip)
    ensures Less(t, it, tip) ==> it !in Pruned(t, all, tip)
  {
    hide Less;
    if !Less(t, it, tip) {
      forall c | c in candidates
        ensures c in Pruned(t, all, tip)
      {
        LessIsStrictTotal(t, tip, it, c);
      }
    }
  }

  lemma CommonNext(t: Tree, genesis: Id, chain: seq<Id>, b: Id)
    requires TreeOk(t, genesis) && b in t && !Contains(t, chain, b)
    ensures t[b].prev.At? ==>
              t[b].prev.id in t && Common(t, chain, t[b].prev.id) == Common(t, chain, b)
              && Height(t, t[b].prev.id) < Height(t, b)
    ensures t[b].prev.NoBlock? ==> Common(t, chain, b) == 0
  {
  }

  lemma CommonHere(t: Tree, chain: seq<Id>, b: Id)
    requires b in t && Contains(t, chain, b)
    ensures Common(t, chain, b) == t[b].height + 1 && t[b].height < |chain| && chain[t[b].height] == b
  {
  }

  /** Blocks above the active chain's height are not on it. */
  lemma {:induction false} CommonBelow(t: Tree, genesis: Id, chain: seq<Id>, b: Id)
    requires TreeOk(t, genesis) && b in t && t[b].height >= |chain|
    ensures chain == [] ==> Common(t, chain, b) == 0
    ensures chain != [] ==>
              Ancestor(t, b, |chain| - 1) in t && Common(t, chain, Ancestor(t, b, |chain| - 1)) == Common(t, chain, b)
    decreases Height(t, b)
  {
    if Up(t, b).At? {
      var p := Up(t, b).id;
      if t[p].height >= |chain| {
        CommonBelow(t, genesis, chain, p);
      }
    } else {
      assert t[b].height == 0;
    }
  }

  /** The same blocks are known to be invalid themselves. */
  ghost predicate SameInvalid(t: Tree, t': Tree) {
    t'.Keys == t.Keys && forall b {:trigger b in t} :: b in t ==> t'[b].failedValid == t[b].failedValid
  }

  /** The same blocks have a failed block on their path. */
  ghost predicate SameClean(t: Tree, t': Tree) { forall b {:trigger Clean(t, b)} :: Clean(t', b) == Clean(t, b) }

  lemma {:induction false} MarkChildClean(t: Tree, x: Id, b: Id)
    requires x in t && !Clean(t, x)
    ensures Clean(MarkChild(t, x), b) == Clean(t, b)
    decreases Height(t, b)
  {
    ShapeUp(t, MarkChild(t, x), b);
    if Up(t, b).At? {
      MarkChildClean(t, x, Up(t, b).id);
    }
  }

  lemma MarkChildSameClean(t0: Tree, t: Tree, x: Id)
    requires x in t && !Clean(t0, x) && SameClean(t0, t)
    ensures SameClean(t0, MarkChild(t, x))
  {
    hide Clean;
    forall b: Id
      ensures Clean(MarkChild(t, x), b) == Clean(t0, b)
    {
      assert Clean(t, x) == Clean(t0, x) && Clean(t, b) == Clean(t0, b);
      MarkChildClean(t, x, b);
    }
  }

  lemma FlagsRefl(t: Tree)
    ensures OnlyFlags(t, t) && SameInvalid(t, t) && SameClean(t, t)
  {
  }

  lemma ParentIsAncestor(t: Tree, a: Id, b: Id)
    requires a in t && IsAncestor(t, a, b)
    ensures Up(t, a).At? ==> IsAncestor(t, Up(t, a).id, b)
    ensures !Failed(t[a]) && Up(t, a).At? && Clean(t, Up(t, a).id) ==> Clean(t, a)
    ensures !Failed(t[a]) && Up(t, a).NoBlock? ==> Clean(t, a)
  {
    if Up(t, a).At? {
      AncestorTrans(t, Up(t, a).id, a, b);
    }
  }

  lemma {:induction false} AncestorTrans(t: Tree, a: Id, b: Id, c: Id)
    requires IsAncestor(t, a, b) && IsAncestor(t, b, c)
    ensures IsAncestor(t, a, c)
    decreases Height(t, c)
  {
    if b != c {
      AncestorTrans(t, a, b, Up(t, c).id);
    }
  }

  lemma LinkedCandidate(t: Tree, genesis: Id, valid: Id -> bool, candidates: set<Id>, unlinked: set<(Id, Id)>,
      chain: seq<Id>, best: Link, c: Id)
    requires AllOk(t, genesis, valid, candidates, unlinked, chain, best) && c in candidates
    ensures c in t && t[c].nChainTx != 0
  {
  }

  lemma CandidatesKnown(t: Tree, genesis: Id, valid: Id -> bool, candidates: set<Id>, unlinked: set<(Id, Id)>,
      chain: seq<Id>, best: Link)
    requires AllOk(t, genesis, valid, candidates, unlinked, chain, best)
    ensures forall c :: c in candidates ==> c in t && t[c].nChainTx != 0
  {
  }

  lemma DiscardStep(t0: Tree, t: Tree, genesis: Id, valid: Id -> bool, candidates: set<Id>, unlinked: set<(Id, Id)>,
      chain: seq<Id>, best: Link, test: Id, x: Id)
    requires AllOk(t, genesis, valid, candidates, unlinked, chain, best)
    requires OnlyFlags(t0, t) && SameInvalid(t0, t) && SameClean(t0, t)
    requires x in t && t[x].nChainTx != 0 && test in t0 && Failed(t0[test]) && IsAncestor(t0, test, x) && test != x
    ensures var t' := MarkChild(t, x);
            && AllOk(t', genesis, valid, candidates - {x}, unlinked, chain, best)
            && OnlyFlags(t0, t') && SameInvalid(t0, t') && SameClean(t0, t')
            && t[x].prev.At? && t'[x].prev == t[x].prev && t[x].prev.id in t' && t'[t[x].prev.id].nChainTx != 0
            && IsAncestor(t0, test, t[x].prev.id) && Height(t0, t[x].prev.id) < Height(t0, x)
    ensures !Clean(t0, x)
  {
    hide TreeOk, CountersOk, UnlinkedOk, ChainOk, FlagsOk, CandidatesOk, AllValid, Clean, OnlyFlags, SameShape,
        SameInvalid, SameClean;
    FlagsOnlyMore(t0, t);
    FailedBelow(t0, test, x);
    ShapeIsAncestor(t0, t, test, x);
    FailedStays(t0, t, test);
    FailedBelow(t, test, x);
    LinkedParent(t, genesis, x);
    MarkStep(t, MarkChild(t, x), genesis, valid, candidates, unlinked, chain, best, x);
    FlagsAgain(t0, t, MarkChild(t, x));
    ShapeUp(t0, t, x);
    MarkedChildSame(t0, t, x);
    MarkChildSameClean(t0, t, x);
  }

  lemma MarkedChildSame(t0: Tree, t: Tree, x: Id)
    requires SameInvalid(t0, t) && x in t
    ensures SameInvalid(t0, MarkChild(t, x))
    ensures forall b :: b in t ==> MarkChild(t, x)[b].nChainTx == t[b].nChainTx
  {
  }

  lemma FailedStays(t0: Tree, t: Tree, b: Id)
    requires OnlyFlags(t0, t) && b in t0 && Failed(t0[b])
    ensures b in t && Failed(t[b])
  {
  }

  lemma FlagsAgain(t: Tree, t': Tree, t'': Tree)
    requires OnlyFlags(t, t') && OnlyFlags(t', t'')
    ensures OnlyFlags(t, t'')
  {
    forall b | b in t
      ensures && t''[b] == t[b].(failedValid := t''[b].failedValid, failedChild := t''[b].failedChild)
              && (t[b].failedValid ==> t''[b].failedValid) && (t[b].failedChild ==> t''[b].failedChild)
    {
      assert b in t';
    }
  }

  lemma InvalidAgain(t: Tree, t': Tree, t'': Tree)
    requires SameInvalid(t, t') && SameInvalid(t', t'')
    ensures SameInvalid(t, t'')
  {
    forall b | b in t
      ensures t''[b].failedValid == t[b].failedValid
    {
      assert b in t';
    }
  }

  lemma LastDiscard(t0: Tree, t: Tree, test: Id)
    requires OnlyFlags(t0, t) && test in t0 && Failed(t0[test])
    ensures !Clean(t, test) && !Clean(t0, test)
  {
    FailedStays(t0, t, test);
    FailedBelow(t, test, test);
  }

  lemma DiscardedMore(t: Tree, t': Tree, t'': Tree, c: set<Id>, c': set<Id>, c'': set<Id>)
    requires OnlyFlags(t, t') && OnlyFlags(t', t'') && SameInvalid(t, t') && SameInvalid(t', t'') && SameClean(t, t')
             && SameClean(t', t'')
    requires forall x :: x in c && x !in c' ==> !Clean(t, x)
    requires forall x :: x in c' && x !in c'' ==> !Clean(t', x)
    ensures OnlyFlags(t, t'') && SameInvalid(t, t'') && SameClean(t, t'')
    ensures forall x :: x in c && x !in c'' ==> !Clean(t, x)
  {
    hide OnlyFlags, SameInvalid, Clean;
    FlagsAgain(t, t', t'');
    InvalidAgain(t, t', t'');
    forall b: Id
      ensures Clean(t'', b) == Clean(t, b)
    {
      assert Clean(t', b) == Clean(t, b);
    }
  }

  lemma FirstIsMember(s: seq<Id>)
    requires s != []
    ensures s[0] in Members(s)
  {
  }

  lemma NoData(t: Tree, b: Id)
    requires CountersOk(t, {}) && b in t && !t[b].haveData
    ensures t[b].nChainTx == 0
  {
  }

  lemma SameDataRefl(t: Tree)
    ensures SameData(t, t)
  {
  }

  lemma Single(b: Id)
    ensures NoDuplicates([b]) && Members([b]) == {b}
  {
  }

  lemma EmptyMembers()
    ensures Members([]) == {}
  {
  }

  lemma LinkStep(t: Tree, genesis: Id, valid: Id -> bool, unlinked: set<(Id, Id)>, candidates: set<Id>, chain: seq<Id>,
      best: Link,
                 pending: set<Id>, q: Id, seqId: nat, t0: Tree)
    requires TreeOk(t, genesis) && CountersOk(t, pending) && UnlinkedOk(t, unlinked) && q in pending
             && pending <= t.Keys
    requires ChainOk(t, valid, chain) && FlagsOk(t, valid) && CandidatesOk(t, valid, candidates, chain, best)
    requires SameData(t0, t) && Neat(t, candidates, chain)
    ensures var t' := Counted(t, q, seqId);
            && TreeOk(t', genesis) && CountersOk(t', pending - {q} + Waiting(unlinked, q))
            && UnlinkedOk(t', NotUnder(unlinked, q))
            && ChainOk(t', valid, chain) && FlagsOk(t', valid)
            && (forall i :: 0 <= i < |chain| ==> chain[i] in t')
            && CandidatesOk(t', valid, if NotBelowTip(t', q, chain) then candidates + {q} else candidates, chain, best)
            && Neat(t', if NotBelowTip(t', q, chain) then candidates + {q} else candidates, chain)
            && SameData(t0, t')
  {
    hide TreeOk, CountersOk, UnlinkedOk, ChainOk, FlagsOk, CandidatesOk, Waiting, NotUnder, Less, Neat;
    PendingApart(t, genesis, unlinked, pending, q);
    CountedNeat(t, valid, candidates, chain, best, q, seqId);
    CountedCounters(t, genesis, unlinked, pending, q, seqId);
    CountedUnlinked(t, genesis, unlinked, pending, q, seqId);
    CountedChain(t, valid, chain, q, seqId);
    CountedCandidates(t, valid, candidates, chain, best, q, seqId);
    CountedShape(t, q, seqId, t0);
    ShapeTree(t, Counted(t, q, seqId), genesis);
  }

  lemma CountedShape(t: Tree, q: Id, seqId: nat, t0: Tree)
    requires q in t && SameData(t0, t)
    ensures SameShape(t, Counted(t, q, seqId)) && SameData(t0, Counted(t, q, seqId))
  {
  }
}
