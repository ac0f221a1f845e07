/** Connecting a block's transactions to the coins view and disconnecting them again with the
    undo data built on the way: UpdateCoins, ApplyTxInUndo and DisconnectBlock. */
module BlockUndo {
  import opened Utxo
  import opened CoinsCache

  /** `height` is zero unless the input spent the last output of its transaction. */
  datatype TxInUndo = TxInUndo(txout: TxOut, coinBase: bool, coinStake: bool, height: int, version: int)

  // ---------------------------------------------------------------- on plain maps

  function Lookup(m: Plain, txid: Txid): Coins { if txid in m then m[txid] else CLEARED }

  predicate CanSpend(m: Plain, p: OutPoint) { p.Point? && IsAvailable(Lookup(m, p.hash), p.n) }

  function SpendPoint(m: Plain, p: OutPoint): Plain
    requires CanSpend(m, p)
  {
    Put(m, p.hash, Visible(Cleanup(Spend(Lookup(m, p.hash), p.n).0)))
  }

  function UndoOf(m: Plain, p: OutPoint): TxInUndo
    requires CanSpend(m, p)
  {
    var c := Lookup(m, p.hash);
    var c' := Spend(c, p.n).0;
    if c'.vout == [] then TxInUndo(c.vout[p.n], c'.coinBase, c'.coinStake, c'.height, c'.version)
    else TxInUndo(c.vout[p.n], false, false, 0, 0)
  }

  function Resize(vout: seq<TxOut>, n: nat): (r: seq<TxOut>)
    ensures |r| == if |vout| < n then n else |vout|
    ensures forall i :: 0 <= i < |vout| ==> r[i] == vout[i]
    ensures forall i :: |vout| <= i < |r| ==> r[i] == Null
  {
    if |vout| < n then vout + seq(n - |vout|, _ => Null) else vout
  }

  /** The coins ApplyTxInUndo leaves in the view, and whether it found them as expected. */
  function RestoredCoins(c: Coins, p: OutPoint, undo: TxInUndo): (Coins, bool)
    requires p.Point?
  {
    var base := if undo.height != 0 then
        CLEARED.(coinBase := undo.coinBase, height := undo.height, version := undo.version) else c;
    var clean := (if undo.height != 0 then IsPruned(c) else !IsPruned(c)) && !IsAvailable(base, p.n);
    (base.(vout := Resize(base.vout, p.n + 1)[p.n := undo.txout]), clean)
  }

  /** (A null prevout occurs in coinbases only, whose inputs are never restored.) */
  function RestorePoint(m: Plain, p: OutPoint, undo: TxInUndo): (Plain, bool) {
    if p == NullPoint then (m, false) else
    var (c, clean) := RestoredCoins(Lookup(m, p.hash), p, undo);
    (Put(m, p.hash, Visible(Cleanup(c))), clean)
  }

  // ---------------------------------------------------------------- one input

  /** What is forgotten: the coinstake flag of the entries in `lost`. */
  function Forget(m: Plain, lost: set<Txid>): Plain {
    map txid | txid in m :: if txid in lost then m[txid].(coinStake := false) else m[txid]
  }

  /** Heights above zero are what lets undo data tell a last output from another one. */
  ghost predicate Rooted(m: Plain) { forall txid :: txid in m ==> m[txid].height != 0 }

  lemma TrimOfSpent(vout: seq<TxOut>, n: nat)
    requires n < |vout| && Trimmed(vout) && vout[n] != Null
    ensures Resize(Trim(vout[n := Null]), n + 1)[n := vout[n]] == vout
    ensures Trim(vout[n := Null]) == [] ==> vout == Resize([], n + 1)[n := vout[n]]
  {
    var spent := vout[n := Null];
    var t := Trim(spent);
    forall i | 0 <= i < |t|
      ensures t[i] == spent[i]
    {}
    if n < |vout| - 1 {
      assert spent[|vout| - 1] != Null;
      assert t == spent;
    }
  }

  lemma RestoreInverts(c: Coins, p: OutPoint, stake: bool)
    requires p.Point? && Trimmed(c.vout) && IsAvailable(c, p.n) && c.height != 0
    ensures var c' := Spend(c, p.n).0;
            var undo := if c'.vout == [] then TxInUndo(c.vout[p.n], c'.coinBase, c'.coinStake, c'.height, c'.version)
                        else TxInUndo(c.vout[p.n], false, false, 0, 0);
            && (c'.vout == [] ==> RestoredCoins(CLEARED, p, undo) == (c.(coinStake := false), true))
            && (c'.vout != [] ==> RestoredCoins(c'.(coinStake := stake), p, undo) == (c.(coinStake := stake), true))
  {
    TrimOfSpent(c.vout, p.n);
    TrimmedPruned(Spend(c, p.n).0);
  }

  /** The set a single input adds to `lost`. */
  function EmptiedBy(m: Plain, p: OutPoint): set<Txid>
    requires CanSpend(m, p)
  {
    if p.hash in SpendPoint(m, p) then {} else {p.hash}
  }

  lemma SpendPointIs(m: Plain, p: OutPoint)
    requires Tidy(m) && Rooted(m) && CanSpend(m, p)
    ensures var c' := Spend(m[p.hash], p.n).0;
            && SpendPoint(m, p) == (if c'.vout == [] then m - {p.hash} else m[p.hash := c'])
            && (p.hash in SpendPoint(m, p) <==> c'.vout != [])
    ensures Tidy(SpendPoint(m, p)) && Rooted(SpendPoint(m, p))
  {
    var c' := Spend(m[p.hash], p.n).0;
    TrimIdle(c'.vout);
    TrimmedPruned(c');
  }

  lemma SpendPointKeeps(m: Plain, p: OutPoint)
    requires Tidy(m) && Rooted(m) && CanSpend(m, p)
    ensures Tidy(SpendPoint(m, p)) && Rooted(SpendPoint(m, p))
    ensures SpendPoint(m, p).Keys == m.Keys - EmptiedBy(m, p) && EmptiedBy(m, p) <= m.Keys
  {
    SpendPointIs(m, p);
  }

  lemma PutBack(m: Plain, m': Plain, txid: Txid, c: Coins, lost: set<Txid>, more: set<Txid>)
    requires txid in m && Trimmed(c.vout) && !IsPruned(c) && more <= {txid}
    requires c == Forget(m, lost + more)[txid]
    requires forall t :: t != txid ==> Get(m', t) == Get(m, t)
    ensures Put(Forget(m', lost), txid, Visible(Cleanup(c))) == Forget(m, lost + more)
  {
    TrimIdle(c.vout);
    var back, whole := Forget(m', lost)[txid := c], Forget(m, lost + more);
    forall t
      ensures Get(back, t) == Get(whole, t)
    {
      if t != txid { assert Get(m', t) == Get(m, t); }
    }
    assert forall t :: t in back <==> Get(back, t).Some?;
    assert forall t :: t in whole <==> Get(whole, t).Some?;
    assert forall t :: t in whole ==> Get(back, t) == Some(back[t]) && Get(whole, t) == Some(whole[t]);
  }

  /** Undoing an input restores the view, except for a coinstake flag that went with the last output. */
  lemma PointInverts(m: Plain, p: OutPoint, lost: set<Txid>)
    requires Tidy(m) && Rooted(m) && CanSpend(m, p)
    ensures RestorePoint(Forget(SpendPoint(m, p), lost), p, UndoOf(m, p)) == (Forget(m, lost + EmptiedBy(m, p)), true)
  {
    hide RestoredCoins, UndoOf, Spend, Rooted;
    SpendPointIs(m, p);
    PointRestored(m, p, lost);
    var c1 := m[p.hash].(coinStake := m[p.hash].coinStake && p.hash !in lost + EmptiedBy(m, p));
    assert !IsPruned(c1) by { assert c1.vout == m[p.hash].vout; }
    PutBack(m, SpendPoint(m, p), p.hash, c1, lost, EmptiedBy(m, p));
  }

  lemma PointRestored(m: Plain, p: OutPoint, lost: set<Txid>)
    requires Tidy(m) && Rooted(m) && CanSpend(m, p)
    ensures RestoredCoins(Lookup(Forget(SpendPoint(m, p), lost), p.hash), p, UndoOf(m, p))
            == (m[p.hash].(coinStake := m[p.hash].coinStake && p.hash !in lost + EmptiedBy(m, p)), true)
  {
    hide RestoredCoins, Trim;
    SpendPointIs(m, p);
    var c := m[p.hash];
    RestoreInverts(c, p, c.coinStake && p.hash !in lost);
  }

  // ---------------------------------------------------------------- the inputs of a transaction

  predicate CanSpendAll(m: Plain, vin: seq<OutPoint>) {
    vin == [] || (CanSpend(m, vin[0]) && CanSpendAll(SpendPoint(m, vin[0]), vin[1..]))
  }

  function SpendAll(m: Plain, vin: seq<OutPoint>): Plain
    requires CanSpendAll(m, vin)
  {
    if vin == [] then m else SpendAll(SpendPoint(m, vin[0]), vin[1..])
  }

  function UndoAll(m: Plain, vin: seq<OutPoint>): (undos: seq<TxInUndo>)
    requires CanSpendAll(m, vin)
    ensures |undos| == |vin|
  {
    if vin == [] then [] else [UndoOf(m, vin[0])] + UndoAll(SpendPoint(m, vin[0]), vin[1..])
  }

  /** Inputs are restored last one first. */
  function RestoreAll(m: Plain, vin: seq<OutPoint>, undos: seq<TxInUndo>): (Plain, bool)
    requires |vin| == |undos|
  {
    if vin == [] then (m, true)
    else
      var (m1, ok1) := RestoreAll(m, vin[1..], undos[1..]);
      var (m2, ok2) := RestorePoint(m1, vin[0], undos[0]);
      (m2, ok1 && ok2)
  }

  function Emptied(m: Plain, vin: seq<OutPoint>): set<Txid>
    requires CanSpendAll(m, vin)
  {
    if vin == [] then {} else EmptiedBy(m, vin[0]) + Emptied(SpendPoint(m, vin[0]), vin[1..])
  }

  lemma {:induction false} SpendAllKeeps(m: Plain, vin: seq<OutPoint>)
    requires Tidy(m) && Rooted(m) && CanSpendAll(m, vin)
    ensures Tidy(SpendAll(m, vin)) && Rooted(SpendAll(m, vin))
    ensures SpendAll(m, vin).Keys == m.Keys - Emptied(m, vin) && Emptied(m, vin) <= m.Keys
  {
    hide Tidy, Rooted, CanSpend, SpendPoint;
    if vin != [] {
      SpendPointKeeps(m, vin[0]);
      SpendAllKeeps(SpendPoint(m, vin[0]), vin[1..]);
    }
  }

  lemma UnionSwap(a: set<Txid>, b: set<Txid>, c: set<Txid>)
    ensures a + b + c == a + (c + b) && a + {} == a && {} + a == a
  {}

  lemma {:induction false} AllInvert(m: Plain, vin: seq<OutPoint>, lost: set<Txid>)
    requires Tidy(m) && Rooted(m) && CanSpendAll(m, vin)
    ensures RestoreAll(Forget(SpendAll(m, vin), lost), vin, UndoAll(m, vin))
            == (Forget(m, lost + Emptied(m, vin)), true)
  {
    if vin == [] {
      assert lost + {} == lost;
    } else {
      SpendPointIs(m, vin[0]);
      var m1 := SpendPoint(m, vin[0]);
      AllInvert(m1, vin[1..], lost);
      var lost1 := lost + Emptied(m1, vin[1..]);
      PointInverts(m, vin[0], lost1);
      UnionSwap(lost, Emptied(m1, vin[1..]), EmptiedBy(m, vin[0]));
    }
  }

  // ---------------------------------------------------------------- one transaction

  function Inputs(tx: Tx): seq<OutPoint> { if IsCoinBase(tx) then [] else tx.vin }

  function ApplyTx(m: Plain, tx: Tx, height: int): Plain
    requires CanSpendAll(m, Inputs(tx))
  {
    Put(SpendAll(m, Inputs(tx)), tx.id, Visible(FromTx(tx, height)))
  }

  /** Whether the outputs found in the view are those of the transaction. */
  predicate OutputsMatch(found: Coins, tx: Tx, height: int) {
    var outs := ClearUnspendable(found);
    var outsBlock := FromTx(tx, height);
    Equal(if outsBlock.version < 0 then outs.(version := outsBlock.version) else outs, outsBlock)
  }

  function UndoTx(m: Plain, tx: Tx, undos: seq<TxInUndo>, height: int): (Plain, bool)
  {
    if |undos| != |Inputs(tx)| then (m, false) else
    var (m1, ok) := RestoreAll(m - {tx.id}, Inputs(tx), undos);
    (m1, OutputsMatch(Lookup(m, tx.id), tx, height) && ok)
  }

  /** The coins a block's own transaction left, seen after its coinstake flag was forgotten or not. */
  lemma OwnOutputsMatch(tx: Tx, height: int, stake: bool)
    requires stake ==> IsCoinStake(tx)
    ensures OutputsMatch(CLEARED, tx, height) <==> IsPruned(FromTx(tx, height))
    ensures OutputsMatch(FromTx(tx, height).(coinStake := stake), tx, height)
            <==> IsPruned(FromTx(tx, height)) || stake == IsCoinStake(tx)
  {
    var c := FromTx(tx, height);
    ClearUnspendableIdle(tx, height);
    assert ClearUnspendable(c.(coinStake := stake)) == c.(coinStake := stake);
    assert ClearUnspendable(CLEARED).vout == [];
    assert IsPruned(c.(coinStake := stake)) <==> IsPruned(c);
    TrimmedPruned(c);
  }

  lemma PutNew(m: Plain, txid: Txid, c: Coins)
    requires Tidy(m) && Rooted(m) && txid !in m && Trimmed(c.vout) && c.height != 0
    ensures var m' := Put(m, txid, Visible(c));
            Tidy(m') && Rooted(m') && m' - {txid} == m && Get(m', txid) == Visible(c)
  {}

  lemma ApplyTxKeeps(m: Plain, tx: Tx, height: int)
    requires Tidy(m) && Rooted(m) && CanSpendAll(m, Inputs(tx)) && tx.id !in m && height != 0
    ensures var m' := ApplyTx(m, tx, height);
            && Tidy(m') && Rooted(m')
            && m' - {tx.id} == SpendAll(m, Inputs(tx)) && Get(m', tx.id) == Visible(FromTx(tx, height))
  {
    SpendAllKeeps(m, Inputs(tx));
    PutNew(SpendAll(m, Inputs(tx)), tx.id, FromTx(tx, height));
  }

  lemma ForgetWithout(m: Plain, txid: Txid, lost: set<Txid>)
    ensures Forget(m, lost) - {txid} == Forget(m - {txid}, lost)
  {}

  /** Undoing a transaction restores the view it was applied to, apart from forgotten coinstake
      flags; it is reported clean unless its own flag was forgotten before. */
  lemma TxInverts(m: Plain, tx: Tx, height: int, lost: set<Txid>)
    requires Tidy(m) && Rooted(m) && CanSpendAll(m, Inputs(tx)) && tx.id !in m && height != 0
    ensures UndoTx(Forget(ApplyTx(m, tx, height), lost), tx, UndoAll(m, Inputs(tx)), height)
            == (Forget(m, lost + Emptied(m, Inputs(tx))),
                !(IsCoinStake(tx) && !IsPruned(FromTx(tx, height)) && tx.id in lost))
  {
    ApplyTxKeeps(m, tx, height);
    AllInvert(m, Inputs(tx), lost);
    ForgetWithout(ApplyTx(m, tx, height), tx.id, lost);
    OwnOutputsMatch(tx, height, if tx.id in lost then false else IsCoinStake(tx));
  }

  // ---------------------------------------------------------------- a block

  predicate CanApplyBlock(m: Plain, vtx: seq<Tx>, height: int)
    decreases |vtx|
  {
    vtx == [] || (CanSpendAll(m, Inputs(vtx[0])) && CanApplyBlock(ApplyTx(m, vtx[0], height), vtx[1..], height))
  }

  function ApplyBlock(m: Plain, vtx: seq<Tx>, height: int): Plain
    requires CanApplyBlock(m, vtx, height)
    decreases |vtx|
  {
    if vtx == [] then m else ApplyBlock(ApplyTx(m, vtx[0], height), vtx[1..], height)
  }

  /** The undo data of every transaction; a coinbase has none. */
  function BlockUndos(m: Plain, vtx: seq<Tx>, height: int): (undos: seq<seq<TxInUndo>>)
    requires CanApplyBlock(m, vtx, height)
    ensures |undos| == |vtx|
    decreases |vtx|
  {
    if vtx == [] then []
    else [UndoAll(m, Inputs(vtx[0]))] + BlockUndos(ApplyTx(m, vtx[0], height), vtx[1..], height)
  }

  /** Transactions are undone last one first. */
  function UndoBlock(m: Plain, vtx: seq<Tx>, undos: seq<seq<TxInUndo>>, height: int): (Plain, bool)
    requires |undos| == |vtx|
  {
    if vtx == [] then (m, true)
    else
      var (m1, ok1) := UndoBlock(m, vtx[1..], undos[1..], height);
      var (m2, ok2) := UndoTx(m1, vtx[0], undos[0], height);
      (m2, ok1 && ok2)
  }

  /** Transactions fully spent by the block's inputs, its own among them. */
  function Lost(m: Plain, vtx: seq<Tx>, height: int): set<Txid>
    requires CanApplyBlock(m, vtx, height)
    decreases |vtx|
  {
    if vtx == [] then {}
    else Emptied(m, Inputs(vtx[0])) + Lost(ApplyTx(m, vtx[0], height), vtx[1..], height)
  }

  /** The block's txids are distinct and none has unspent coins yet. */
  predicate NewIds(m: Plain, vtx: seq<Tx>) {
    && (forall i :: 0 <= i < |vtx| ==> vtx[i].id !in m)
    && (forall i, j :: 0 <= i < j < |vtx| ==> vtx[i].id != vtx[j].id)
  }

  /** A view, and a block that can be connected to it at a height. */
  ghost predicate Ready(m: Plain, vtx: seq<Tx>, height: int) {
    Tidy(m) && Rooted(m) && height != 0 && CanApplyBlock(m, vtx, height) && NewIds(m, vtx)
  }

  /** What DisconnectBlock sees of a transaction of the block whose flag was forgotten. */
  predicate FlagMissed(tx: Tx, height: int, lost: set<Txid>) {
    IsCoinStake(tx) && !IsPruned(FromTx(tx, height)) && tx.id in lost
  }

  predicate NoneMissed(vtx: seq<Tx>, height: int, lost: set<Txid>) {
    forall i :: 0 <= i < |vtx| ==> !FlagMissed(vtx[i], height, lost)
  }

  lemma NextReady(m: Plain, vtx: seq<Tx>, height: int)
    requires Ready(m, vtx, height) && vtx != []
    ensures Ready(ApplyTx(m, vtx[0], height), vtx[1..], height)
    ensures var m1 := ApplyTx(m, vtx[0], height);
            && m1.Keys - {vtx[0].id} == m.Keys - Emptied(m, Inputs(vtx[0]))
            && Emptied(m, Inputs(vtx[0])) <= m.Keys
            && (vtx[0].id in m1 <==> !IsPruned(FromTx(vtx[0], height)))
  {
    hide Tidy, Rooted, FromTx, ApplyTx, SpendAll, Emptied, CanSpendAll, Inputs, IsPruned;
    ApplyTxKeeps(m, vtx[0], height);
    SpendAllKeeps(m, Inputs(vtx[0]));
    var m1 := ApplyTx(m, vtx[0], height);
    assert m1.Keys - {vtx[0].id} == (m1 - {vtx[0].id}).Keys;
    forall i | 0 <= i < |vtx[1..]|
      ensures vtx[1..][i].id !in m1
    {
      assert vtx[1..][i] == vtx[i + 1] && vtx[i + 1].id !in (m1 - {vtx[0].id}).Keys;
    }
  }

  /** Undo in reverse, with flags forgotten beforehand: everything is restored but the coinstake
      flags of the entries the block spent completely; it is clean unless a coinstake of the
      block itself has lost its flag. */
  lemma {:induction false} BlockInverts(m: Plain, vtx: seq<Tx>, height: int, lost: set<Txid>)
    requires Ready(m, vtx, height)
    ensures var all := lost + Lost(m, vtx, height);
            UndoBlock(Forget(ApplyBlock(m, vtx, height), lost), vtx, BlockUndos(m, vtx, height), height)
            == (Forget(m, all), NoneMissed(vtx, height, all))
    decreases |vtx|
  {
    if vtx == [] {
      assert lost + {} == lost;
    } else {
      NextReady(m, vtx, height);
      var m1 := ApplyTx(m, vtx[0], height);
      BlockInverts(m1, vtx[1..], height, lost);
      var lost1 := lost + Lost(m1, vtx[1..], height);
      HeadInverts(m, vtx, height, lost1);
      UnionSwap(lost, Lost(m1, vtx[1..], height), Emptied(m, Inputs(vtx[0])));
    }
  }

  lemma SameFlagsMissed(m: Plain, vtx: seq<Tx>, height: int, lost1: set<Txid>, emptied: set<Txid>)
    requires vtx != [] && NewIds(m, vtx) && emptied <= m.Keys
    ensures NoneMissed(vtx, height, lost1 + emptied) <==>
              !FlagMissed(vtx[0], height, lost1) && NoneMissed(vtx[1..], height, lost1)
  {
    assert forall i ::
             0 <= i < |vtx| ==> (FlagMissed(vtx[i], height, lost1 + emptied) <==> FlagMissed(vtx[i], height, lost1));
    assert forall i :: 1 <= i < |vtx| ==> vtx[i] == vtx[1..][i - 1];
  }

  /** The last step of undoing a block, after its other transactions have been undone. */
  lemma HeadInverts(m: Plain, vtx: seq<Tx>, height: int, lost1: set<Txid>)
    requires Ready(m, vtx, height) && vtx != []
    ensures var all := lost1 + Emptied(m, Inputs(vtx[0]));
            var (back, ok) := UndoTx(Forget(ApplyTx(m, vtx[0], height), lost1), vtx[0], UndoAll(m, Inputs(vtx[0])),
                height);
            && back == Forget(m, all)
            && (NoneMissed(vtx[1..], height, lost1) && ok <==> NoneMissed(vtx, height, all))
  {
    TxInverts(m, vtx[0], height, lost1);
    SpendAllKeeps(m, Inputs(vtx[0]));
    SameFlagsMissed(m, vtx, height, lost1, Emptied(m, Inputs(vtx[0])));
  }

  /** An entry is lost exactly when it is gone afterwards: nothing brings it back within the block. */
  lemma {:induction false} LostIsGone(m: Plain, vtx: seq<Tx>, height: int, txid: Txid)
    requires Ready(m, vtx, height)
    ensures txid in m ==> (txid in Lost(m, vtx, height) <==> txid !in ApplyBlock(m, vtx, height))
    ensures txid !in m && (forall i :: 0 <= i < |vtx| ==> vtx[i].id != txid) ==>
              txid !in Lost(m, vtx, height) && txid !in ApplyBlock(m, vtx, height)
    decreases |vtx|
  {
    hide Tidy, Rooted, FromTx, ApplyTx, CanSpendAll, Emptied, Inputs, IsPruned;
    if vtx != [] {
      NextReady(m, vtx, height);
      var m1 := ApplyTx(m, vtx[0], height);
      assert txid in m1.Keys - {vtx[0].id} <==> txid in m.Keys - Emptied(m, Inputs(vtx[0]));
      assert forall i :: 1 <= i < |vtx| ==> vtx[i] == vtx[1..][i - 1];
      LostIsGone(m1, vtx[1..], height, txid);
    }
  }

  // ---------------------------------------------------------------- which entries a block spends completely

  /** Transactions from number `from` on spend every unspent output of an entry. */
  ghost predicate SpentBy(c: Coins, txid: Txid, vtx: seq<Tx>, from: nat) {
    forall n {:trigger IsAvailable(c, n)} :: IsAvailable(c, n) ==> SpendsIt(vtx, from, Point(txid, n))
  }

  predicate SpendsIt(vtx: seq<Tx>, from: nat, p: OutPoint) { exists i :: from <= i < |vtx| && p in Inputs(vtx[i]) }

  /** The entries of a view that a block spends completely. */
  ghost function SpentWhole(m: Plain, vtx: seq<Tx>): set<Txid> {
    set txid | txid in m && SpentBy(m[txid], txid, vtx, 0)
  }

  lemma PointSurvives(m: Plain, p: OutPoint, txid: Txid, n: nat)
    requires CanSpend(m, p)
    ensures IsAvailable(Lookup(SpendPoint(m, p), txid), n) <==> IsAvailable(Lookup(m, txid), n) && p != Point(txid, n)
  {
    if txid == p.hash {
      var c := Spend(m[txid], p.n).0;
      CleanupKeepsOutputs(c);
    }
  }

  lemma {:induction false} InputsSurvive(m: Plain, vin: seq<OutPoint>, txid: Txid, n: nat)
    requires CanSpendAll(m, vin)
    ensures IsAvailable(Lookup(SpendAll(m, vin), txid), n) <==>
              IsAvailable(Lookup(m, txid), n) && Point(txid, n) !in vin
    decreases |vin|
  {
    hide SpendPoint, CanSpend, Lookup, IsAvailable;
    if vin != [] {
      PointSurvives(m, vin[0], txid, n);
      InputsSurvive(SpendPoint(m, vin[0]), vin[1..], txid, n);
      assert vin == [vin[0]] + vin[1..];
    }
  }

  lemma {:induction false} OutputSurvives(m: Plain, vtx: seq<Tx>, height: int, txid: Txid, n: nat)
    requires CanApplyBlock(m, vtx, height) && forall i :: 0 <= i < |vtx| ==> vtx[i].id != txid
    ensures IsAvailable(Lookup(ApplyBlock(m, vtx, height), txid), n) <==>
              IsAvailable(Lookup(m, txid), n) && !SpendsIt(vtx, 0, Point(txid, n))
    decreases |vtx|
  {
    hide CanSpendAll, IsAvailable, Inputs;
    if vtx != [] {
      var tx, rest, p := vtx[0], vtx[1..], Point(txid, n);
      InputsSurvive(m, Inputs(tx), txid, n);
      var m1 := ApplyTx(m, tx, height);
      assert Lookup(m1, txid) == Lookup(SpendAll(m, Inputs(tx)), txid);
      OutputSurvives(m1, rest, height, txid, n);
      assert forall i :: 0 <= i < |rest| ==> rest[i] == vtx[i + 1];
      assert SpendsIt(vtx, 0, p) <==> p in Inputs(tx) || SpendsIt(rest, 0, p) by {
        if SpendsIt(rest, 0, p) {
          var i :| 0 <= i < |rest| && p in Inputs(rest[i]);
          assert p in Inputs(vtx[i + 1]);
        }
        if SpendsIt(vtx, 0, p) {
          var i :| 0 <= i < |vtx| && p in Inputs(vtx[i]);
          assert i > 0 ==> p in Inputs(rest[i - 1]);
        }
      }
    }
  }

  lemma {:induction false} BlockTidy(m: Plain, vtx: seq<Tx>, height: int)
    requires Ready(m, vtx, height)
    ensures Tidy(ApplyBlock(m, vtx, height))
    decreases |vtx|
  {
    if vtx != [] {
      NextReady(m, vtx, height);
      BlockTidy(ApplyTx(m, vtx[0], height), vtx[1..], height);
    }
  }

  /** An entry is gone after the block exactly when the block's inputs name all its unspent outputs. */
  lemma GoneIsSpent(m: Plain, vtx: seq<Tx>, height: int, txid: Txid)
    requires Ready(m, vtx, height) && txid in m
    ensures txid !in ApplyBlock(m, vtx, height) <==> SpentBy(m[txid], txid, vtx, 0)
  {
    hide ApplyBlock, CanApplyBlock, SpendsIt;
    BlockTidy(m, vtx, height);
    var m' := ApplyBlock(m, vtx, height);
    forall n: nat
      ensures IsAvailable(Lookup(m', txid), n) <==> IsAvailable(m[txid], n) && !SpendsIt(vtx, 0, Point(txid, n))
    {
      OutputSurvives(m, vtx, height, txid, n);
    }
    if txid in m' {
      var n :| 0 <= n < |m'[txid].vout| && m'[txid].vout[n] != Null;
      assert IsAvailable(Lookup(m', txid), n);
    } else {
      assert forall n: nat :: !IsAvailable(Lookup(m', txid), n);
    }
  }

  /** The same for a transaction of the block and those behind it. */
  lemma {:induction false} OwnGoneIsSpent(m: Plain, vtx: seq<Tx>, height: int, i: nat)
    requires Ready(m, vtx, height) && i < |vtx| && !IsPruned(FromTx(vtx[i], height))
    ensures vtx[i].id !in ApplyBlock(m, vtx, height) <==> SpentBy(FromTx(vtx[i], height), vtx[i].id, vtx, i + 1)
    decreases i
  {
    hide IsAvailable, SpendsIt, FromTx;
    NextReady(m, vtx, height);
    var m1, rest := ApplyTx(m, vtx[0], height), vtx[1..];
    var txid, c := vtx[i].id, FromTx(vtx[i], height);
    forall n: nat | IsAvailable(c, n)
      ensures SpendsIt(vtx, i + 1, Point(txid, n)) <==> SpendsIt(rest, i, Point(txid, n))
    {
      SpendsLater(vtx, i, Point(txid, n));
    }
    if i == 0 {
      GoneIsSpent(m1, rest, height, txid);
    } else {
      assert vtx[i] == rest[i - 1];
      OwnGoneIsSpent(m1, rest, height, i - 1);
    }
  }

  lemma SpendsLater(vtx: seq<Tx>, i: nat, p: OutPoint)
    requires vtx != []
    ensures SpendsIt(vtx, i + 1, p) <==> SpendsIt(vtx[1..], i, p)
  {
    hide Inputs;
    var rest := vtx[1..];
    if SpendsIt(vtx, i + 1, p) {
      var k :| i + 1 <= k < |vtx| && p in Inputs(vtx[k]);
      assert p in Inputs(rest[k - 1]);
    }
    if SpendsIt(rest, i, p) {
      var k :| i <= k < |rest| && p in Inputs(rest[k]);
      assert p in Inputs(vtx[k + 1]);
    }
  }

  /** Disconnecting a block right after connecting it.  The view comes back exactly, apart from
      the coinstake flag of every entry the block spent completely (ApplyTxInUndo does not copy
      that flag back).  So it comes back exactly if and only if no coinstake entry was spent
      completely, and the disconnection is clean if and only if no coinstake of the block itself was. */
  lemma RoundTrip(m: Plain, vtx: seq<Tx>, height: int)
    requires Ready(m, vtx, height)
    ensures var (back, clean) := UndoBlock(ApplyBlock(m, vtx, height), vtx, BlockUndos(m, vtx, height), height);
            && back == Forget(m, SpentWhole(m, vtx))
            && (back == m <==> forall txid :: txid in SpentWhole(m, vtx) ==> !m[txid].coinStake)
            && (clean <==> NoStakeSpent(vtx, height))
  {
    hide ApplyBlock, BlockUndos, UndoBlock, CanApplyBlock, SpentBy, Forget;
    BackIsForgotten(m, vtx, height);
    forall txid | txid in m
      ensures txid in m.Keys - ApplyBlock(m, vtx, height).Keys <==> txid in SpentWhole(m, vtx)
    {
      GoneIsSpent(m, vtx, height, txid);
    }
    assert m.Keys - ApplyBlock(m, vtx, height).Keys == SpentWhole(m, vtx);
    ForgetIsIdle(m, SpentWhole(m, vtx));
    NoStakeGone(m, vtx, height);
  }

  /** Every input finds its entry as the undo data expects it, whether or not the outputs match. */
  predicate Restores(m: Plain, vtx: seq<Tx>, undos: seq<seq<TxInUndo>>, height: int)
    requires |undos| == |vtx|
  {
    vtx == [] || (
      && Restores(m, vtx[1..], undos[1..], height)
      && TxRestores(UndoBlock(m, vtx[1..], undos[1..], height).0, vtx[0], undos[0]))
  }

  predicate TxRestores(m: Plain, tx: Tx, undos: seq<TxInUndo>) {
    |undos| == |Inputs(tx)| && RestoreAll(m - {tx.id}, Inputs(tx), undos).1
  }

  lemma {:induction false} CleanRestores(m: Plain, vtx: seq<Tx>, undos: seq<seq<TxInUndo>>, height: int)
    requires |undos| == |vtx| && UndoBlock(m, vtx, undos, height).1
    ensures Restores(m, vtx, undos, height)
  {
    hide RestoreAll, OutputsMatch;
    if vtx != [] {
      CleanRestores(m, vtx[1..], undos[1..], height);
    }
  }

  /** So does every input of a block that has just been connected. */
  lemma {:induction false} UndoRestores(m: Plain, vtx: seq<Tx>, height: int, lost: set<Txid>)
    requires Ready(m, vtx, height)
    ensures Restores(Forget(ApplyBlock(m, vtx, height), lost), vtx, BlockUndos(m, vtx, height), height)
    decreases |vtx|
  {
    if vtx != [] {
      NextReady(m, vtx, height);
      var m1 := ApplyTx(m, vtx[0], height);
      UndoRestores(m1, vtx[1..], height, lost);
      BlockInverts(m1, vtx[1..], height, lost);
      HeadRestores(m, vtx[0], height, lost + Lost(m1, vtx[1..], height));
    }
  }

  lemma HeadRestores(m: Plain, tx: Tx, height: int, lost: set<Txid>)
    requires Tidy(m) && Rooted(m) && CanSpendAll(m, Inputs(tx)) && tx.id !in m && height != 0
    ensures TxRestores(Forget(ApplyTx(m, tx, height), lost), tx, UndoAll(m, Inputs(tx)))
  {
    ApplyTxKeeps(m, tx, height);
    AllInvert(m, Inputs(tx), lost);
    ForgetWithout(ApplyTx(m, tx, height), tx.id, lost);
  }

  /** No coinstake of the block is spent completely by the transactions behind it. */
  ghost predicate NoStakeSpent(vtx: seq<Tx>, height: int) {
    forall i :: 0 <= i < |vtx| && IsCoinStake(vtx[i]) && !IsPruned(FromTx(vtx[i], height)) ==>
      !SpentBy(FromTx(vtx[i], height), vtx[i].id, vtx, i + 1)
  }

  lemma NoStakeGone(m: Plain, vtx: seq<Tx>, height: int)
    requires Ready(m, vtx, height)
    ensures NoneMissed(vtx, height, Lost(m, vtx, height)) <==> NoStakeSpent(vtx, height)
  {
    hide ApplyBlock, Lost, SpentBy, IsPruned, FromTx, IsCoinStake, Tidy, Rooted;
    MissedFlags(m, vtx, height);
    forall i | 0 <= i < |vtx| && !IsPruned(FromTx(vtx[i], height))
      ensures vtx[i].id !in ApplyBlock(m, vtx, height) <==> SpentBy(FromTx(vtx[i], height), vtx[i].id, vtx, i + 1)
    {
      OwnGoneIsSpent(m, vtx, height, i);
    }
  }

  lemma BackIsForgotten(m: Plain, vtx: seq<Tx>, height: int)
    requires Ready(m, vtx, height)
    ensures UndoBlock(ApplyBlock(m, vtx, height), vtx, BlockUndos(m, vtx, height), height)
            == (Forget(m, m.Keys - ApplyBlock(m, vtx, height).Keys), NoneMissed(vtx, height, Lost(m, vtx, height)))
  {
    BlockInverts(m, vtx, height, {});
    ForgetNothing(ApplyBlock(m, vtx, height));
    UnionSwap(Lost(m, vtx, height), {}, {});
    LostFlags(m, vtx, height);
  }

  const STAKED: Plain := map[7 := Coins(false, true, [Out(1, [1])], 1, 1)]
  const SPENDING: seq<Tx> := [Tx(10, [NullPoint], [Out(0, [1])], 1), Tx(11, [Point(7, 0)], [Out(1, [1])], 1)]

  lemma SpendingFits(height: int)
    requires height != 0
    ensures Ready(STAKED, SPENDING, height)
  {
    var coinbase, tx, p := SPENDING[0], SPENDING[1], Point(7, 0);
    assert STAKED[7].vout[0] != Null;
    var m1 := ApplyTx(STAKED, coinbase, height);
    assert 7 in m1 && m1[7] == STAKED[7];
    assert Inputs(tx) == [p] && [p][1..] == [];
    assert CanSpend(m1, p);
    assert CanSpendAll(m1, [p]);
    assert SPENDING[1..] == [tx] && [tx][1..] == [];
    assert CanApplyBlock(m1, [tx], height);
  }

  /** A coinstake's only output, spent by the block: its entry comes back as an ordinary one. */
  lemma FlagIsLost(height: int)
    requires height != 0
    ensures Ready(STAKED, SPENDING, height)
    ensures UndoBlock(ApplyBlock(STAKED, SPENDING, height), SPENDING, BlockUndos(STAKED, SPENDING, height),
            height).0 != STAKED
  {
    hide ApplyBlock, BlockUndos, UndoBlock, CanApplyBlock, Forget, Tidy, Rooted;
    SpendingFits(height);
    RoundTrip(STAKED, SPENDING, height);
    assert Point(7, 0) in Inputs(SPENDING[1]);
    assert SpendsIt(SPENDING, 0, Point(7, 0));
    assert 7 in SpentWhole(STAKED, SPENDING);
  }

  lemma LostFlags(m: Plain, vtx: seq<Tx>, height: int)
    requires Ready(m, vtx, height)
    ensures Forget(m, Lost(m, vtx, height)) == Forget(m, m.Keys - ApplyBlock(m, vtx, height).Keys)
  {
    hide Lost, ApplyBlock;
    forall txid | txid in m
      ensures txid in Lost(m, vtx, height) <==> txid !in ApplyBlock(m, vtx, height)
    {
      LostIsGone(m, vtx, height, txid);
    }
  }

  lemma MissedFlags(m: Plain, vtx: seq<Tx>, height: int)
    requires Ready(m, vtx, height)
    ensures NoneMissed(vtx, height, Lost(m, vtx, height)) <==>
            forall i :: 0 <= i < |vtx| && IsCoinStake(vtx[i]) && !IsPruned(FromTx(vtx[i], height)) ==>
                  vtx[i].id in ApplyBlock(m, vtx, height)
  {
    forall i | 0 <= i < |vtx| && !IsPruned(FromTx(vtx[i], height))
      ensures vtx[i].id in Lost(m, vtx, height) <==> vtx[i].id !in ApplyBlock(m, vtx, height)
    {
      OwnLostIsGone(m, vtx, height, i);
    }
  }

  lemma ForgetNothing(m: Plain)
    ensures Forget(m, {}) == m
  {}

  lemma ForgetIsIdle(m: Plain, lost: set<Txid>)
    requires lost <= m.Keys
    ensures Forget(m, lost) == m <==> forall txid :: txid in m && m[txid].coinStake ==> txid !in lost
  {
    if Forget(m, lost) == m {
      forall txid | txid in m && m[txid].coinStake
        ensures txid !in lost
      {
        assert Forget(m, lost)[txid] == m[txid];
      }
    }
  }

  /** A transaction of the block is lost exactly when later transactions of the block spend it completely. */
  lemma {:induction false} OwnLostIsGone(m: Plain, vtx: seq<Tx>, height: int, i: nat)
    requires Ready(m, vtx, height) && i < |vtx| && !IsPruned(FromTx(vtx[i], height))
    ensures vtx[i].id in Lost(m, vtx, height) <==> vtx[i].id !in ApplyBlock(m, vtx, height)
    decreases i
  {
    hide Tidy, Rooted, FromTx, ApplyTx, CanSpendAll, Emptied, Inputs, IsPruned;
    var m1 := ApplyTx(m, vtx[0], height);
    NextReady(m, vtx, height);
    if i == 0 {
      LostIsGone(m1, vtx[1..], height, vtx[0].id);
    } else {
      assert vtx[1..][i - 1] == vtx[i];
      OwnLostIsGone(m1, vtx[1..], height, i - 1);
    }
  }

  // ---------------------------------------------------------------- the code, on a stack of caches

  /** What the topmost cache of a view stands for. */
  ghost function Top(view: CoinsStack): Plain
    requires view.Shape()
    reads view
  {
    view.plain[|view.layers|]
  }

  /** `view` was changed at its top level only. */
  twostate predicate TopChanges(view: CoinsStack)
    requires old(view.Shape())
    reads view
  {
    && view.Valid() && |view.layers| == old(|view.layers|)
    && forall j :: 0 <= j < |view.layers| ==> view.plain[j] == old(view.plain[j])
  }

  /** `view` was changed at its top level only, where it now stands for m. */
  twostate predicate TopBecomes(view: CoinsStack, m: Plain)
    requires old(view.Shape())
    reads view
  {
    TopChanges(view) && view.plain[|view.layers|] == m
  }

  method SpendInput(view: CoinsStack, p: OutPoint) returns (undo: TxInUndo)
    requires view.Valid() && view.layers != [] && CanSpend(Top(view), p)
    modifies view
    ensures TopBecomes(view, SpendPoint(old(Top(view)), p)) && undo == UndoOf(old(Top(view)), p)
  {
    view.ModifyCoins(p.hash);
    var coins := view.Current();
    undo := TxInUndo(coins.vout[p.n], false, false, 0, 0);
    coins := Spend(coins, p.n).0;
    if |coins.vout| == 0 {
      undo := undo.(height := coins.height, coinBase := coins.coinBase, coinStake := coins.coinStake,
        version := coins.version);
    }
    view.Assign(coins);
    view.Release();
  }

  method AddOutputs(view: CoinsStack, tx: Tx, height: int)
    requires view.Valid() && view.layers != []
    requires !IsCoinBase(tx) ==> tx.id !in view.plain[|view.layers| - 1]
    modifies view
    ensures TopBecomes(view, Put(old(Top(view)), tx.id, Visible(FromTx(tx, height))))
  {
    view.ModifyNewCoins(tx.id, IsCoinBase(tx));
    view.Assign(FromTx(tx, height));
    TrimIdle(FromTx(tx, height).vout);
    view.Release();
  }

  /** Mark inputs spent, recording how to undo that. */
  method SpendInputs(view: CoinsStack, vin: seq<OutPoint>) returns (txundo: seq<TxInUndo>)
    requires view.Valid() && view.layers != [] && CanSpendAll(Top(view), vin)
    modifies view
    ensures TopBecomes(view, SpendAll(old(Top(view)), vin)) && txundo == UndoAll(old(Top(view)), vin)
  {
    txundo := [];
    ghost var m, cur := Top(view), Top(view);
    for i := 0 to |vin|
      invariant TopBecomes(view, cur) && CanSpendAll(cur, vin[i..])
      invariant SpendAll(cur, vin[i..]) == SpendAll(m, vin)
      invariant txundo + UndoAll(cur, vin[i..]) == UndoAll(m, vin)
    {
      SpendsNext(cur, vin, i, txundo);
      var undo := SpendInput(view, vin[i]);
      txundo := txundo + [undo];
      cur := SpendPoint(cur, vin[i]);
    }
  }

  lemma SpendsNext(m: Plain, vin: seq<OutPoint>, i: nat, done: seq<TxInUndo>)
    requires i < |vin| && CanSpendAll(m, vin[i..])
    ensures CanSpend(m, vin[i]) && CanSpendAll(SpendPoint(m, vin[i]), vin[i + 1..])
    ensures SpendAll(m, vin[i..]) == SpendAll(SpendPoint(m, vin[i]), vin[i + 1..])
    ensures done + UndoAll(m, vin[i..]) == done + [UndoOf(m, vin[i])] + UndoAll(SpendPoint(m, vin[i]), vin[i + 1..])
  {
    assert vin[i..][1..] == vin[i + 1..];
  }

  method UpdateCoins(tx: Tx, view: CoinsStack, height: int) returns (txundo: seq<TxInUndo>)
    requires view.Valid() && view.layers != [] && CanSpendAll(Top(view), Inputs(tx))
    requires !IsCoinBase(tx) ==> tx.id !in view.plain[|view.layers| - 1]
    modifies view
    ensures TopBecomes(view, ApplyTx(old(Top(view)), tx, height))
    ensures txundo == UndoAll(old(Top(view)), Inputs(tx))
  {
    txundo := [];
    if !IsCoinBase(tx) {
      txundo := SpendInputs(view, tx.vin);
    }
    AddOutputs(view, tx, height);
  }

  /** The transaction loop of ConnectBlock; undo data is kept for all but the first transaction. */
  method ConnectTransactions(vtx: seq<Tx>, view: CoinsStack, height: int)
    returns (undoDummy: seq<TxInUndo>, blockUndo: seq<seq<TxInUndo>>)
    requires view.Valid() && view.layers != [] && vtx != [] && CanApplyBlock(Top(view), vtx, height)
    requires AllNew(vtx, view.plain[|view.layers| - 1])
    modifies view
    ensures TopBecomes(view, ApplyBlock(old(Top(view)), vtx, height))
    ensures [undoDummy] + blockUndo == BlockUndos(old(Top(view)), vtx, height)
  {
    hide Midway, CanApplyBlock, ApplyBlock, BlockUndos, CanSpendAll, ApplyTx, UndoAll, Inputs;
    ghost var m := Top(view);
    MidwayStart(m, vtx, height);
    undoDummy := UpdateCoins(vtx[0], view, height);
    blockUndo := [];
    ghost var cur := ApplyTx(m, vtx[0], height);
    for i := 1 to |vtx|
      invariant TopBecomes(view, cur) && Midway(m, vtx, height, i, cur, undoDummy, blockUndo)
    {
      MidwayCan(m, vtx, height, i, cur, undoDummy, blockUndo);
      var txundo := UpdateCoins(vtx[i], view, height);
      MidwayNext(m, vtx, height, i, cur, undoDummy, blockUndo);
      blockUndo := blockUndo + [txundo];
      cur := ApplyTx(cur, vtx[i], height);
    }
    MidwayEnd(m, vtx, height, cur, undoDummy, blockUndo);
  }

  predicate AllNew(vtx: seq<Tx>, m: Plain) { forall i :: 0 <= i < |vtx| ==> vtx[i].id !in m }

  /** Transactions up to i have turned m into cur, leaving undo data. */
  predicate Midway(m: Plain, vtx: seq<Tx>, height: int, i: nat, cur: Plain, first: seq<TxInUndo>,
      more: seq<seq<TxInUndo>>) {
    && |more| + 1 == i <= |vtx| && CanApplyBlock(m, vtx, height) && CanApplyBlock(cur, vtx[i..], height)
    && ApplyBlock(cur, vtx[i..], height) == ApplyBlock(m, vtx, height)
    && [first] + more + BlockUndos(cur, vtx[i..], height) == BlockUndos(m, vtx, height)
  }

  lemma MidwayCan(m: Plain, vtx: seq<Tx>, height: int, i: nat, cur: Plain, first: seq<TxInUndo>,
      more: seq<seq<TxInUndo>>)
    requires Midway(m, vtx, height, i, cur, first, more) && i < |vtx|
    ensures CanSpendAll(cur, Inputs(vtx[i]))
  {}

  lemma MidwayStart(m: Plain, vtx: seq<Tx>, height: int)
    requires CanApplyBlock(m, vtx, height) && vtx != []
    ensures CanSpendAll(m, Inputs(vtx[0]))
    ensures Midway(m, vtx, height, 1, ApplyTx(m, vtx[0], height), UndoAll(m, Inputs(vtx[0])), [])
  {
    var first := UndoAll(m, Inputs(vtx[0]));
    assert [first] + [] == [first];
  }

  lemma MidwayEnd(m: Plain, vtx: seq<Tx>, height: int, cur: Plain, first: seq<TxInUndo>, more: seq<seq<TxInUndo>>)
    requires Midway(m, vtx, height, |vtx|, cur, first, more)
    ensures CanApplyBlock(m, vtx, height) && cur == ApplyBlock(m, vtx, height)
            && [first] + more == BlockUndos(m, vtx, height)
  {
    assert vtx[|vtx|..] == [];
    assert [first] + more + [] == [first] + more;
  }

  lemma MidwayNext(m: Plain, vtx: seq<Tx>, height: int, i: nat, cur: Plain, first: seq<TxInUndo>,
      more: seq<seq<TxInUndo>>)
    requires Midway(m, vtx, height, i, cur, first, more) && i < |vtx|
    ensures CanSpendAll(cur, Inputs(vtx[i]))
    ensures Midway(m, vtx, height, i + 1, ApplyTx(cur, vtx[i], height), first, more + [UndoAll(cur, Inputs(vtx[i]))])
  {
    assert vtx[i..][1..] == vtx[i + 1..];
    var next, rest := UndoAll(cur, Inputs(vtx[i])), BlockUndos(ApplyTx(cur, vtx[i], height), vtx[i + 1..], height);
    Regroup(first, more, next, rest);
  }

  lemma Regroup(first: seq<TxInUndo>, more: seq<seq<TxInUndo>>, next: seq<TxInUndo>, rest: seq<seq<TxInUndo>>)
    ensures [first] + more + ([next] + rest) == [first] + (more + [next]) + rest
  {}

  lemma RestoredSame(c: Coins, c': Coins, p: OutPoint, undo: TxInUndo)
    requires p.Point? && (IsPruned(c) <==> IsPruned(c')) && (!IsPruned(c) ==> c == c')
    ensures RestoredCoins(c, p, undo).1 == RestoredCoins(c', p, undo).1
    ensures RestoredCoins(c, p, undo).1 ==> RestoredCoins(c, p, undo).0 == RestoredCoins(c', p, undo).0
  {
  }

  /** What is done to the coins of one transaction while they are open for modification. */
  method Restore(undo: TxInUndo, found: Coins, p: OutPoint) returns (coins: Coins, fClean: bool)
    requires p.Point?
    ensures (coins, fClean) == RestoredCoins(found, p, undo)
  {
    fClean, coins := true, found;
    if undo.height != 0 {
      if !IsPruned(coins) {
        fClean := false;
      }
      coins := CLEARED.(coinBase := undo.coinBase, height := undo.height, version := undo.version);
    } else {
      if IsPruned(coins) {
        fClean := false;
      }
    }
    if IsAvailable(coins, p.n) {
      fClean := false;
    }
    if |coins.vout| < p.n + 1 {
      coins := coins.(vout := Resize(coins.vout, p.n + 1));
    }
    coins := coins.(vout := coins.vout[p.n := undo.txout]);
  }

  lemma RestoresNext(m: Plain, vin: seq<OutPoint>, undos: seq<TxInUndo>, j: nat)
    requires |undos| == |vin| && j < |vin|
    ensures var (m1, ok1) := RestoreAll(m, vin[j + 1..], undos[j + 1..]);
            var (m2, ok2) := RestorePoint(m1, vin[j], undos[j]);
            RestoreAll(m, vin[j..], undos[j..]) == (m2, ok1 && ok2)
  {
    hide RestorePoint;
    assert vin[j..][1..] == vin[j + 1..] && undos[j..][1..] == undos[j + 1..];
  }

  /** Restore one spent output; a clean restoration leaves exactly what the undo data says. */
  method ApplyTxInUndo(undo: TxInUndo, view: CoinsStack, p: OutPoint) returns (fClean: bool)
    requires view.Valid() && view.layers != [] && p.Point?
    modifies view
    ensures TopChanges(view) && fClean == RestorePoint(old(Top(view)), p, undo).1
    ensures fClean ==> TopBecomes(view, RestorePoint(old(Top(view)), p, undo).0)
  {
    hide RestoredCoins, Cleanup, LayerOk;
    view.ModifyCoins(p.hash);
    var found := view.Current();
    RestoredSame(found, Lookup(Top(view), p.hash), p, undo);
    var coins;
    coins, fClean := Restore(undo, found, p);
    view.Assign(coins);
    view.Release();
  }

  lemma PrunedOutputsMatch(c: Coins, tx: Tx, height: int)
    requires IsPruned(c)
    ensures OutputsMatch(c, tx, height) <==> IsPruned(FromTx(tx, height))
  {
    CleanupKeepsOutputs(c.(vout := ClearUnspendableOuts(c.vout)));
  }

  /** Check a transaction's outputs against the view and take them out. */
  method RemoveOutputs(view: CoinsStack, tx: Tx, height: int) returns (match_: bool)
    requires view.Valid() && view.layers != []
    modifies view
    ensures TopBecomes(view, old(Top(view)) - {tx.id})
    ensures match_ == OutputsMatch(Lookup(old(Top(view)), tx.id), tx, height)
  {
    hide OutputsMatch, FromTx, LayerOk;
    view.ModifyCoins(tx.id);
    var found := view.Current();
    if IsPruned(found) {
      PrunedOutputsMatch(found, tx, height);
      PrunedOutputsMatch(CLEARED, tx, height);
    }
    match_ := OutputsMatch(found, tx, height);
    view.Assign(CLEARED);
    view.Release();
  }

  /** Restore a transaction's inputs, last one first. */
  method RestoreInputs(view: CoinsStack, vin: seq<OutPoint>, undos: seq<TxInUndo>) returns (fClean: bool)
    requires view.Valid() && view.layers != [] && |vin| == |undos|
    requires forall i :: 0 <= i < |vin| ==> vin[i].Point?
    modifies view
    ensures TopChanges(view) && fClean == RestoreAll(old(Top(view)), vin, undos).1
    ensures fClean ==> TopBecomes(view, RestoreAll(old(Top(view)), vin, undos).0)
  {
    hide RestorePoint, LayerOk;
    fClean := true;
    ghost var m := Top(view);
    var j := |vin|;
    while j > 0
      invariant 0 <= j <= |vin| && TopChanges(view)
      invariant fClean == RestoreAll(m, vin[j..], undos[j..]).1
      invariant fClean ==> TopBecomes(view, RestoreAll(m, vin[j..], undos[j..]).0)
    {
      j := j - 1;
      RestoresNext(m, vin, undos, j);
      var clean := ApplyTxInUndo(undos[j], view, vin[j]);
      fClean := fClean && clean;
    }
  }

  /** Disconnect one transaction; the first of a block has no inputs to restore. */
  method DisconnectTransaction(view: CoinsStack, tx: Tx, txundo: seq<TxInUndo>, height: int) returns (fClean: bool)
    requires view.Valid() && view.layers != [] && |txundo| == |Inputs(tx)|
    requires forall j :: 0 <= j < |Inputs(tx)| ==> Inputs(tx)[j].Point?
    modifies view
    ensures TopChanges(view) && fClean == UndoTx(old(Top(view)), tx, txundo, height).1
    ensures TxRestores(old(Top(view)), tx, txundo) ==> TopBecomes(view, UndoTx(old(Top(view)), tx, txundo, height).0)
  {
    fClean := RemoveOutputs(view, tx, height);
    var restored := RestoreInputs(view, Inputs(tx), txundo);
    fClean := fClean && restored;
  }

  lemma UndoesNothing(m: Plain, height: int)
    ensures UndoBlock(m, [], [], height) == (m, true) && Restores(m, [], [], height)
  {
  }

  lemma UndoesNext(m: Plain, vtx: seq<Tx>, undos: seq<seq<TxInUndo>>, height: int, i: nat)
    requires |undos| == |vtx| && i < |vtx|
    ensures var (m1, ok1) := UndoBlock(m, vtx[i + 1..], undos[i + 1..], height);
            var (m2, ok2) := UndoTx(m1, vtx[i], undos[i], height);
            UndoBlock(m, vtx[i..], undos[i..], height) == (m2, ok1 && ok2)
    ensures Restores(m, vtx[i..], undos[i..], height) <==>
              && Restores(m, vtx[i + 1..], undos[i + 1..], height)
              && TxRestores(UndoBlock(m, vtx[i + 1..], undos[i + 1..], height).0, vtx[i], undos[i])
  {
    assert vtx[i..][1..] == vtx[i + 1..] && undos[i..][1..] == undos[i + 1..];
  }

  /** The first transaction is the only coinbase, and no other has a null input (CheckBlock, CheckTransaction). */
  predicate Shaped(vtx: seq<Tx>) {
    && vtx != [] && IsCoinBase(vtx[0])
    && forall i :: 1 <= i < |vtx| ==> RealInputs(vtx[i])
  }

  predicate RealInputs(tx: Tx) { !IsCoinBase(tx) && forall j :: 0 <= j < |tx.vin| ==> tx.vin[j].Point? }

  /** From transaction i on, there is undo data for every input. */
  predicate Fits(vtx: seq<Tx>, undos: seq<seq<TxInUndo>>, i: nat) {
    |undos| == |vtx| && forall k :: i <= k < |vtx| ==> |undos[k]| == |Inputs(vtx[k])|
  }

  /** Disconnect a block: fails on inconsistent undo data, and otherwise tells whether everything
      was found as the block had left it. The view is what UndoBlock says, provided that the inputs find
      their entries as expected; otherwise it depends on what the cache still holds of spent entries. */
  method DisconnectBlock(vtx: seq<Tx>, blockUndo: seq<seq<TxInUndo>>, height: int, view: CoinsStack)
    returns (ok: bool, fClean: bool)
    requires view.Valid() && view.layers != [] && Shaped(vtx)
    modifies view
    ensures TopChanges(view)
    ensures ok <==> Fits(vtx, [[]] + blockUndo, 0)
    ensures ok ==> fClean == UndoBlock(old(Top(view)), vtx, [[]] + blockUndo, height).1
    ensures ok && fClean ==> Restores(old(Top(view)), vtx, [[]] + blockUndo, height)
    ensures ok && Restores(old(Top(view)), vtx, [[]] + blockUndo, height) ==>
              TopBecomes(view, UndoBlock(old(Top(view)), vtx, [[]] + blockUndo, height).0)
  {
    hide UndoBlock, Restores, TxRestores, UndoTx, LayerOk;
    var undos := [[]] + blockUndo;
    if |undos| != |vtx| {
      return false, false;
    }
    fClean := true;
    ghost var m := Top(view);
    var i := |vtx|;
    assert vtx[i..] == [] && undos[i..] == [];
    UndoesNothing(m, height);
    while i > 0
      invariant 0 <= i <= |vtx| && TopChanges(view) && Fits(vtx, undos, i)
      invariant fClean == UndoBlock(m, vtx[i..], undos[i..], height).1
      invariant Restores(m, vtx[i..], undos[i..], height) ==>
                  TopBecomes(view, UndoBlock(m, vtx[i..], undos[i..], height).0)
    {
      i := i - 1;
      if |undos[i]| != |Inputs(vtx[i])| {
        return false, false;
      }
      UndoesNext(m, vtx, undos, height, i);
      if fClean {
        CleanRestores(m, vtx[i + 1..], undos[i + 1..], height);
      }
      var clean := DisconnectTransaction(view, vtx[i], undos[i], height);
      fClean := fClean && clean;
    }
    assert vtx[0..] == vtx && undos[0..] == undos;
    if fClean {
      CleanRestores(m, vtx, undos, height);
    }
    ok := true;
  }

  /** Connecting a block to a view and disconnecting it again: clean unless a coinstake of the block
      is spent completely inside it; clean or not, the view is what it was, but for the coinstake flag of
      the entries that the block had spent completely. */
  method ConnectThenDisconnect(vtx: seq<Tx>, height: int, view: CoinsStack) returns (fClean: bool)
    requires view.Valid() && view.layers != [] && Shaped(vtx)
    requires Ready(Top(view), vtx, height) && AllNew(vtx, view.plain[|view.layers| - 1])
    modifies view
    ensures TopChanges(view)
    ensures fClean <==> NoStakeSpent(vtx, height)
    ensures TopBecomes(view, Forget(old(Top(view)), SpentWhole(old(Top(view)), vtx)))
  {
    hide CanApplyBlock, ApplyBlock, BlockUndos, UndoBlock, Forget, SpentWhole, NoStakeSpent, Restores, Ready, Inputs,
        AllNew, Shaped, Fits, LayerOk;
    ghost var m := Top(view);
    ReadyParts(m, vtx, height);
    RoundTrip(m, vtx, height);
    UndoRestores(m, vtx, height, {});
    ForgetNothing(ApplyBlock(m, vtx, height));
    UndosFit(m, vtx, height);
    var undoDummy, blockUndo := ConnectTransactions(vtx, view, height);
    NoDummy(vtx, BlockUndos(m, vtx, height), undoDummy, blockUndo);
    var ok;
    ok, fClean := DisconnectBlock(vtx, blockUndo, height, view);
  }

  lemma ReadyParts(m: Plain, vtx: seq<Tx>, height: int)
    requires Ready(m, vtx, height) && Shaped(vtx)
    ensures CanApplyBlock(m, vtx, height) && vtx != []
  {
  }

  /** A coinbase has no undo data. */
  lemma NoDummy(vtx: seq<Tx>, undos: seq<seq<TxInUndo>>, undoDummy: seq<TxInUndo>, blockUndo: seq<seq<TxInUndo>>)
    requires Shaped(vtx) && Fits(vtx, undos, 0) && [undoDummy] + blockUndo == undos
    ensures [[]] + blockUndo == undos
  {
    assert undos[0] == undoDummy;
  }

  lemma {:induction false} UndosFit(m: Plain, vtx: seq<Tx>, height: int)
    requires CanApplyBlock(m, vtx, height)
    ensures Fits(vtx, BlockUndos(m, vtx, height), 0)
    decreases |vtx|
  {
    if vtx != [] {
      var m1 := ApplyTx(m, vtx[0], height);
      UndosFit(m1, vtx[1..], height);
      var undos := BlockUndos(m, vtx, height);
      forall k | 1 <= k < |vtx|
        ensures |undos[k]| == |Inputs(vtx[k])|
      {
        assert undos[k] == BlockUndos(m1, vtx[1..], height)[k - 1] && vtx[k] == vtx[1..][k - 1];
      }
    }
  }
}
