/** The tree of known block headers, the order in which tips are preferred, and what can be said
    about a block from the flags and counters on the path to its root. */
module BlockTree {

  /** Stands for a CBlockIndex pointer. */
  type Id = nat

  datatype Link = NoBlock | At(id: Id)

  datatype Block = Block(
    prev: Link, height: nat, chainWork: nat,
    nTx: nat, nChainTx: nat, sequenceId: nat,
    haveData: bool, failedValid: bool, failedChild: bool)

  type Tree = map<Id, Block>

  /** Every block but the root extends a known one and adds work to it. */
  ghost predicate TreeOk(t: Tree, genesis: Id) {
    forall b {:trigger b in t} :: b in t ==>
      match t[b].prev
      case NoBlock => b == genesis && t[b].height == 0
      case At(p) => p in t && t[b].height == t[p].height + 1 && t[b].chainWork > t[p].chainWork
  }

  /** The parent, if the tree is well formed there. */
  function Up(t: Tree, b: Id): (p: Link)
    ensures p.At? ==> b in t && p.id in t && t[p.id].height < t[b].height
  {
    if b in t && t[b].prev.At? && t[b].prev.id in t && t[t[b].prev.id].height < t[b].height then t[b].prev else NoBlock
  }

  function Height(t: Tree, b: Id): nat { if b in t then t[b].height else 0 }

  // ---------------------------------------------------------------- the preference order

  /** CBlockIndexWorkComparator: most work first, then earliest received, then lowest address. */
  predicate Less(t: Tree, a: Id, b: Id)
    requires a in t && b in t
  {
    var x, y := t[a], t[b];
    if x.chainWork > y.chainWork then false
    else if x.chainWork < y.chainWork then true
    else if x.sequenceId < y.sequenceId then false
    else if x.sequenceId > y.sequenceId then true
    else a > b
  }

  lemma LessIsStrictTotal(t: Tree, a: Id, b: Id, c: Id)
    requires a in t && b in t && c in t
    ensures !Less(t, a, a)
    ensures a != b ==> Less(t, a, b) || Less(t, b, a)
    ensures Less(t, a, b) ==> !Less(t, b, a)
    ensures Less(t, a, b) && Less(t, b, c) ==> Less(t, a, c)
    ensures !Less(t, b, a) && !Less(t, c, b) ==> !Less(t, c, a)
    ensures Less(t, a, b) && !Less(t, c, b) ==> Less(t, a, c)
  {
  }

  /** `c` is the greatest of a set: the last element of the ordered set. */
  predicate IsMax(t: Tree, s: set<Id>, c: Id)
    requires forall d :: d in s ==> d in t
  {
    c in s && forall d :: d in s ==> !Less(t, c, d)
  }

  lemma {:induction false} MaxExists(t: Tree, s: set<Id>) returns (c: Id)
    requires s != {} && forall d :: d in s ==> d in t
    ensures IsMax(t, s, c)
  {
    c :| c in s;
    var rest := s - {c};
    assert forall e :: e in s ==> e == c || e in rest;
    if rest != {} {
      var d := MaxExists(t, rest);
      if Less(t, c, d) {
        c := d;
      }
    }
  }

  // ---------------------------------------------------------------- along the path to the root

  predicate Failed(b: Block) { b.failedValid || b.failedChild }

  /** No block from `b` to the root has a failed flag. */
  predicate Clean(t: Tree, b: Id)
    decreases Height(t, b)
  {
    b in t && !Failed(t[b]) && (Up(t, b).At? ==> Clean(t, Up(t, b).id))
  }

  /** Some block from `b` to the root is marked as invalid itself. */
  predicate Invalidated(t: Tree, b: Id)
    decreases Height(t, b)
  {
    b in t && (t[b].failedValid || (Up(t, b).At? && Invalidated(t, Up(t, b).id)))
  }

  /** All blocks from `b` to the root obey the consensus rules. */
  predicate AllValid(t: Tree, valid: Id -> bool, b: Id)
    decreases Height(t, b)
  {
    b in t && valid(b) && (Up(t, b).At? ==> AllValid(t, valid, Up(t, b).id))
  }

  predicate IsAncestor(t: Tree, a: Id, b: Id)
    decreases Height(t, b)
  {
    a == b || (Up(t, b).At? && IsAncestor(t, a, Up(t, b).id))
  }

  /** The ancestor at a height, by following pprev. */
  function Ancestor(t: Tree, b: Id, height: nat): (a: Id)
    decreases Height(t, b)
  {
    if Height(t, b) <= height || Up(t, b).NoBlock? then b else Ancestor(t, Up(t, b).id, height)
  }

  /** The whole ancestry has been received. */
  predicate AllReceived(t: Tree, b: Id)
    decreases Height(t, b)
  {
    b in t && t[b].haveData && (Up(t, b).At? ==> AllReceived(t, Up(t, b).id))
  }

  /** Number of transactions from the root to `b`. */
  function TxCount(t: Tree, b: Id): nat
    decreases Height(t, b)
  {
    (if b in t then t[b].nTx else 0) + if Up(t, b).At? then TxCount(t, Up(t, b).id) else 0
  }

  lemma {:induction false} FailedBelow(t: Tree, a: Id, b: Id)
    requires IsAncestor(t, a, b) && a in t && Failed(t[a])
    ensures !Clean(t, b)
    decreases Height(t, b)
  {
    if a != b {
      FailedBelow(t, a, Up(t, b).id);
    }
  }

  /** No failed flag is set without a block on the path that is marked as invalid itself. */
  ghost predicate FlagsRooted(t: Tree) { forall b {:trigger b in t} :: b in t && Failed(t[b]) ==> Invalidated(t, b) }

  /** Then the two ways to look for a failure on a path agree. */
  lemma {:induction false} CleanIsUninvalidated(t: Tree, b: Id)
    requires FlagsRooted(t) && b in t
    ensures Clean(t, b) <==> !Invalidated(t, b)
    decreases Height(t, b)
  {
    if Up(t, b).At? {
      CleanIsUninvalidated(t, Up(t, b).id);
    }
  }

  lemma {:induction false} CleanAncestor(t: Tree, a: Id, b: Id)
    requires IsAncestor(t, a, b) && Clean(t, b)
    ensures Clean(t, a)
    decreases Height(t, b)
  {
    if a != b {
      CleanAncestor(t, a, Up(t, b).id);
    }
  }

  lemma {:induction false} AncestorIsAncestor(t: Tree, b: Id, height: nat)
    requires b in t
    ensures Ancestor(t, b, height) in t && IsAncestor(t, Ancestor(t, b, height), b)
    decreases Height(t, b)
  {
    if !(Height(t, b) <= height || Up(t, b).NoBlock?) {
      AncestorIsAncestor(t, Up(t, b).id, height);
    }
  }

  /** In a proper tree the ancestor at a height has that height, and ancestors are linked. */
  lemma {:induction false} AncestorAt(t: Tree, genesis: Id, b: Id, height: nat)
    requires TreeOk(t, genesis) && b in t && height <= t[b].height
    ensures var a := Ancestor(t, b, height);
            && a in t && t[a].height == height && IsAncestor(t, a, b)
            && (height > 0 ==> t[a].prev == At(Ancestor(t, b, height - 1)))
            && (height == 0 ==> a == genesis && t[a].prev == NoBlock)
    decreases Height(t, b)
  {
    if height < t[b].height {
      AncestorAt(t, genesis, Up(t, b).id, height);
    } else if height > 0 {
      assert Up(t, b).At? && Height(t, Up(t, b).id) == height - 1;
    }
  }

  /** Ancestors have less work, so a block always sorts above its proper ancestors. */
  lemma {:induction false} AncestorsSortBelow(t: Tree, genesis: Id, a: Id, b: Id)
    requires TreeOk(t, genesis) && b in t && IsAncestor(t, a, b)
    ensures a in t && (a != b ==> t[a].chainWork < t[b].chainWork && t[a].height < t[b].height && Less(t, a, b))
    decreases Height(t, b)
  {
    if a != b {
      AncestorsSortBelow(t, genesis, a, Up(t, b).id);
    }
  }

  // ---------------------------------------------------------------- changes that leave the shape alone

  /** Same blocks with the same parents and work; only flags and counters may differ. */
  ghost predicate SameShape(t: Tree, t': Tree) {
    t'.Keys == t.Keys && forall b {:trigger b in t} :: b in t ==>
      t'[b].prev == t[b].prev && t'[b].height == t[b].height && t'[b].chainWork == t[b].chainWork
  }

  lemma ShapeUp(t: Tree, t': Tree, b: Id)
    requires SameShape(t, t')
    ensures Up(t', b) == Up(t, b) && Height(t', b) == Height(t, b) && (b in t' <==> b in t)
  {
    if b in t && t[b].prev.At? && t[b].prev.id in t {
      var p := t[b].prev.id;
      assert p in t';
    }
  }

  lemma ShapeTree(t: Tree, t': Tree, genesis: Id)
    requires SameShape(t, t') && TreeOk(t, genesis)
    ensures TreeOk(t', genesis)
  {
    forall b | b in t'
      ensures match t'[b].prev
              case NoBlock => b == genesis && t'[b].height == 0
              case At(p) => p in t' && t'[b].height == t'[p].height + 1 && t'[b].chainWork > t'[p].chainWork
    {
      assert b in t;
      if t[b].prev.At? {
        var p := t[b].prev.id;
        assert p in t;
      }
    }
  }

  lemma {:induction false} ShapeValid(t: Tree, t': Tree, valid: Id -> bool, b: Id)
    requires SameShape(t, t')
    ensures AllValid(t', valid, b) == AllValid(t, valid, b)
    decreases Height(t, b)
  {
    ShapeUp(t, t', b);
    if Up(t, b).At? {
      ShapeValid(t, t', valid, Up(t, b).id);
    }
  }

  lemma {:induction false} ShapeIsAncestor(t: Tree, t': Tree, a: Id, b: Id)
    requires SameShape(t, t')
    ensures IsAncestor(t', a, b) == IsAncestor(t, a, b)
    decreases Height(t, b)
  {
    ShapeUp(t, t', b);
    if Up(t, b).At? {
      ShapeIsAncestor(t, t', a, Up(t, b).id);
    }
  }

  lemma {:induction false} InvalidatedGrows(t: Tree, t': Tree, b: Id)
    requires SameShape(t, t') && Invalidated(t, b)
    requires forall x :: x in t && t[x].failedValid ==> t'[x].failedValid
    ensures Invalidated(t', b)
    decreases Height(t, b)
  {
    ShapeUp(t, t', b);
    if !t[b].failedValid {
      InvalidatedGrows(t, t', Up(t, b).id);
    }
  }

  /** Flags are only ever set. */
  ghost predicate MoreFailed(t: Tree, t': Tree) {
    SameShape(t, t') && forall b {:trigger b in t} :: b in t && Failed(t[b]) ==> Failed(t'[b])
  }

  lemma {:induction false} CleanShrinks(t: Tree, t': Tree, b: Id)
    requires MoreFailed(t, t') && Clean(t', b)
    ensures Clean(t, b)
    decreases Height(t, b)
  {
    ShapeUp(t, t', b);
    assert b in t;
    if Up(t, b).At? {
      CleanShrinks(t, t', Up(t, b).id);
    }
  }
}
