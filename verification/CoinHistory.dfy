/** Laws of the coins over runs of blocks: where they come from, how long new ones wait, how many there are. */
module CoinHistory {
  import opened Utxo
  import opened BlockUndo
  import opened Conservation

  // ---------------------------------------------------------------- what a transaction leaves behind

  /** An output that can never be spent: it starts with OP_RETURN or is too long. */
  predicate Dead(o: TxOut) { o.Out? && ((o.script != [] && o.script[0] == 0x6a) || |o.script| > 205824) }

  /** The flags, height and version of an entry. */
  predicate Stems(c: Coins, tx: Tx, height: int) {
    && c.height == height && c.version == tx.version
    && (c.coinBase <==> tx.vin == [NullPoint] && tx.vout != [])
    && (c.coinStake <==> tx.vin != [] && tx.vin[0].Point? && |tx.vout| >= 2 && tx.vout[0] == Out(0, []))
  }

  /** After a transaction the view holds exactly its outputs that can be spent, with the height of the block,
      the version of the transaction and whether it created coins. */
  lemma EntryOfTx(m: Plain, tx: Tx, height: int, n: nat)
    requires CanSpendAll(m, Inputs(tx))
    ensures var m' := ApplyTx(m, tx, height);
            && (tx.id in m' ==> Stems(m'[tx.id], tx, height))
            && (IsAvailable(Lookup(m', tx.id), n) <==> n < |tx.vout| && tx.vout[n] != Null && !Dead(tx.vout[n]))
            && (IsAvailable(Lookup(m', tx.id), n) ==> m'[tx.id].vout[n] == tx.vout[n])
  {
    hide CanSpendAll, SpendAll;
    var outs := ClearUnspendableOuts(tx.vout);
    var c := Coins(IsCoinBase(tx), IsCoinStake(tx), outs, height, tx.version);
    CleanupKeepsOutputs(c);
    CoinBaseIs(tx);
    assert FromTx(tx, height) == Cleanup(c);
  }

  lemma CoinBaseIs(tx: Tx)
    ensures IsCoinBase(tx) <==> tx.vin == [NullPoint] && tx.vout != []
  {
  }

  // ---------------------------------------------------------------- what later blocks do to it

  /** Same origin: spending outputs changes nothing else. */
  predicate SameOrigin(c: Coins, c': Coins) { c' == c.(vout := c'.vout) }

  lemma {:induction false} SpendsKeepOrigin(m: Plain, vin: seq<OutPoint>, txid: Txid)
    requires CanSpendAll(m, vin)
    ensures txid in SpendAll(m, vin) ==> txid in m && SameOrigin(m[txid], SpendAll(m, vin)[txid])
  {
    hide IsPruned, Trim;
    if vin != [] {
      SpendsKeepOrigin(SpendPoint(m, vin[0]), vin[1..], txid);
    }
  }

  lemma {:induction false} BlockKeepsOrigin(m: Plain, vtx: seq<Tx>, height: int, txid: Txid)
    requires CanApplyBlock(m, vtx, height) && forall i :: 0 <= i < |vtx| ==> vtx[i].id != txid
    ensures var m' := ApplyBlock(m, vtx, height); txid in m' ==> txid in m && SameOrigin(m[txid], m'[txid])
    decreases |vtx|
  {
    hide CanSpendAll, SpendAll, FromTx, Visible;
    if vtx != [] {
      SpendsKeepOrigin(m, Inputs(vtx[0]), txid);
      BlockKeepsOrigin(ApplyTx(m, vtx[0], height), vtx[1..], height, txid);
    }
  }

  /** The entry of transaction i at the end of its own block. */
  lemma BlockOrigin(m: Plain, vtx: seq<Tx>, height: int, i: nat)
    requires CanApplyBlock(m, vtx, height) && i < |vtx| && forall j :: i < j < |vtx| ==> vtx[j].id != vtx[i].id
    ensures var m' := ApplyBlock(m, vtx, height); vtx[i].id in m' ==> Stems(m'[vtx[i].id], vtx[i], height)
    decreases i
  {
    hide CanSpendAll, SpendAll, ApplyTx, Stems;
    var m1 := ApplyTx(m, vtx[0], height);
    if i == 0 {
      EntryOfTx(m, vtx[0], height, 0);
      BlockKeepsOrigin(m1, vtx[1..], height, vtx[0].id);
      if vtx[0].id in ApplyBlock(m, vtx, height) {
        StemsStays(m1[vtx[0].id], ApplyBlock(m, vtx, height)[vtx[0].id], vtx[0], height);
      }
    } else {
      BlockOrigin(m1, vtx[1..], height, i - 1);
    }
  }

  lemma StemsStays(c: Coins, c': Coins, tx: Tx, height: int)
    requires Stems(c, tx, height) && SameOrigin(c, c')
    ensures Stems(c', tx, height)
  {
  }

  // ---------------------------------------------------------------- a chain of blocks

  datatype Connected = Connected(vtx: seq<Tx>, height: int)

  predicate CanRun(m: Plain, run: seq<Connected>)
    decreases |run|
  {
    run == [] || (
      CanApplyBlock(m, run[0].vtx, run[0].height) && CanRun(ApplyBlock(m, run[0].vtx, run[0].height), run[1..]))
  }

  function Run(m: Plain, run: seq<Connected>): Plain
    requires CanRun(m, run)
    decreases |run|
  {
    if run == [] then m else Run(ApplyBlock(m, run[0].vtx, run[0].height), run[1..])
  }

  /** No block of the run has another transaction with this id. */
  predicate Avoids(run: seq<Connected>, txid: Txid) {
    forall k, i :: 0 <= k < |run| && 0 <= i < |run[k].vtx| ==> run[k].vtx[i].id != txid
  }

  lemma {:induction false} RunKeepsOrigin(m: Plain, run: seq<Connected>, txid: Txid)
    requires CanRun(m, run) && Avoids(run, txid)
    ensures txid in Run(m, run) ==> txid in m && SameOrigin(m[txid], Run(m, run)[txid])
    decreases |run|
  {
    hide CanApplyBlock, ApplyBlock;
    if run != [] {
      BlockKeepsOrigin(m, run[0].vtx, run[0].height, txid);
      assert Avoids(run[1..], txid);
      RunKeepsOrigin(ApplyBlock(m, run[0].vtx, run[0].height), run[1..], txid);
    }
  }

  /** Transaction j of the block spends an output of the transaction with this id. */
  predicate SpendsFrom(vtx: seq<Tx>, j: nat, txid: Txid) {
    j < |vtx| && exists k :: 0 <= k < |Inputs(vtx[j])| && Inputs(vtx[j])[k].Point? && Inputs(vtx[j])[k].hash == txid
  }

  /** It creates coins: its only input is null, or it starts with an empty output. */
  predicate Creates(tx: Tx) {
    || (tx.vin == [NullPoint] && tx.vout != [])
    || (tx.vin != [] && tx.vin[0].Point? && |tx.vout| >= 2 && tx.vout[0] == Out(0, []))
  }

  /** The view in which transaction j of an accepted block is checked holds the entry it spends, and new coins
      in it are mature. */
  lemma CheckedInput(m: Plain, vtx: seq<Tx>, height: int, j: nat, txid: Txid)
    requires AmountsOk(m, vtx, height) && SpendsFrom(vtx, j, txid)
    ensures CanApplyBlock(m, vtx[..j], height)
    ensures var view := ApplyBlock(m, vtx[..j], height);
            txid in view && (view[txid].coinBase || view[txid].coinStake ==> height - view[txid].height >= 25)
  {
    hide CanApplyBlock, ApplyBlock, AccountsOf, AmountsInRange, IsCoinStake;
    var k :| 0 <= k < |Inputs(vtx[j])| && Inputs(vtx[j])[k].Point? && Inputs(vtx[j])[k].hash == txid;
    assert !IsCoinBase(vtx[j]) && Inputs(vtx[j]) == vtx[j].vin;
    BlockPrefix(m, vtx, j, height);
    var view := ApplyBlock(m, vtx[..j], height);
    assert InputsOk(view, vtx[j], height);
    assert CanSpend(view, vtx[j].vin[k]) && Mature(view, vtx[j].vin[k], height);
  }

  /** The maturity law: an accepted block that spends an output of a coinbase or coinstake comes at least 25
      blocks after the one that holds it, whatever blocks come between. */
  lemma NewCoinsWait(m: Plain, vtx: seq<Tx>, h: int, i: nat, between: seq<Connected>, vtx': seq<Tx>, h': int, j: nat)
    requires CanApplyBlock(m, vtx, h) && i < |vtx| && Creates(vtx[i])
    requires forall k :: i < k < |vtx| ==> vtx[k].id != vtx[i].id
    requires CanRun(ApplyBlock(m, vtx, h), between) && Avoids(between, vtx[i].id)
    requires AmountsOk(Run(ApplyBlock(m, vtx, h), between), vtx', h')
    requires j < |vtx'| && SpendsFrom(vtx', j, vtx[i].id)
    requires forall k :: 0 <= k < j ==> vtx'[k].id != vtx[i].id
    ensures h' - h >= 25
  {
    hide CanApplyBlock, ApplyBlock, CanRun, Run, AmountsOk, SpendsFrom, Avoids;
    var txid, m1 := vtx[i].id, ApplyBlock(m, vtx, h);
    var m2 := Run(m1, between);
    BlockOrigin(m, vtx, h, i);
    RunKeepsOrigin(m1, between, txid);
    CheckedInput(m2, vtx', h', j, txid);
    BlockKeepsOrigin(m2, vtx'[..j], h', txid);
  }

  /** Nor can a block spend the coins that it creates. */
  lemma NotInTheSameBlock(m: Plain, vtx: seq<Tx>, height: int, i: nat, j: nat)
    requires AmountsOk(m, vtx, height) && i < j < |vtx| && Creates(vtx[i])
    requires forall k :: i < k < j ==> vtx[k].id != vtx[i].id
    ensures !SpendsFrom(vtx, j, vtx[i].id)
  {
    hide CanApplyBlock, ApplyBlock, SpendsFrom, AmountsOk;
    if SpendsFrom(vtx, j, vtx[i].id) {
      CheckedInput(m, vtx, height, j, vtx[i].id);
      BlockOrigin(m, vtx[..j], height, i);
    }
  }

  // ---------------------------------------------------------------- the supply

  /** A transaction that is neither coinbase nor coinstake never adds to the total. */
  lemma OthersOnlySpend(m: Plain, vtx: seq<Tx>, height: int, j: nat)
    requires AmountsOk(m, vtx, height) && NewIds(m, vtx) && j < |vtx| && ValuesOk(vtx[j]) && !Creates(vtx[j])
    ensures CanApplyBlock(m, vtx[..j], height) && CanApplyBlock(m, vtx[..j + 1], height)
    ensures Total(ApplyBlock(m, vtx[..j + 1], height)) <= Total(ApplyBlock(m, vtx[..j], height))
  {
    hide CanApplyBlock, ApplyBlock, AccountsOf, HaveInputs, AllMature, AmountsInRange, Total, Sum, ValueIn, CanSpendAll,
        ApplyTx;
    CoinBaseIs(vtx[j]);
    BlockPrefix(m, vtx, j, height);
    BlockPrefix(m, vtx, j + 1, height);
    assert vtx[..j + 1] == vtx[..j] + [vtx[j]];
    BlockSnoc(m, vtx[..j], vtx[j], height);
    var view := ApplyBlock(m, vtx[..j], height);
    assert InputsOk(view, vtx[j], height) && Inputs(vtx[j]) == vtx[j].vin;
    NewIdStays(m, vtx[..j], height, vtx[j].id);
    TxTotal(view, vtx[j], height);
    ClearedSum(vtx[j].vout);
  }

  /** Every output that is spent holds a 63-bit amount, and so do they all together. */
  lemma SpentIsMoney(m: Plain, tx: Tx, height: int, k: nat)
    requires InputsOk(m, tx, height) && k < |tx.vin|
    ensures var p := tx.vin[k];
            && p.Point? && p.hash in m && p.n < |m[p.hash].vout| && m[p.hash].vout[p.n].Out?
            && 0 <= m[p.hash].vout[p.n].value < 9223372036854775808
    ensures 0 <= ValueIn(m, tx.vin) < 9223372036854775808
  {
    assert CanSpend(m, tx.vin[k]);
  }

  /** The accounts of the first n transactions. */
  lemma {:induction false} Tally(m: Plain, vtx: seq<Tx>, height: int, n: nat) returns (stake: int)
    requires BlockChecked(vtx) && n <= |vtx| && CanApplyBlock(m, vtx, height)
    requires forall i :: 0 <= i < |vtx| ==> ValuesOk(vtx[i])
    ensures CanApplyBlock(m, vtx[..n], height) && (n <= 1 ==> stake == 0)
    ensures var a := AccountsOf(m, vtx[..n], height); Tallied(vtx, n, a, a.fees, stake)
  {
    hide CanApplyBlock, ApplyBlock, AccountsOf, Tallied, BlockChecked, ValuesOk, CanSpendAll, ApplyTx, ValueIn;
    BlockPrefix(m, vtx, n, height);
    if n == 0 {
      NothingYet(m, vtx, height);
      stake := 0;
      FeesTallied(vtx, 0, AccountsOf(m, vtx[..0], height), 0, 0);
    } else {
      stake := Tally(m, vtx, height, n - 1);
      var a := AccountsOf(m, vtx[..n - 1], height);
      BlockSnoc(m, vtx[..n - 1], vtx[n - 1], height);
      assert vtx[..n] == vtx[..n - 1] + [vtx[n - 1]];
      NextTally(m, vtx, n - 1, height, a.fees, stake);
      var tx, view := vtx[n - 1], ApplyBlock(m, vtx[..n - 1], height);
      var fees := if IsCoinBase(tx) || IsCoinStake(tx) then a.fees else a.fees + ValueIn(view, tx.vin) - Sum(tx.vout);
      stake := if !IsCoinBase(tx) && IsCoinStake(tx) then Sum(tx.vout) - ValueIn(view, tx.vin) else stake;
      FeesTallied(vtx, n, AccountsOf(m, vtx[..n], height), fees, stake);
    }
  }

  lemma FeesTallied(vtx: seq<Tx>, n: nat, a: Accounts, fees: int, stake: int)
    requires n <= |vtx| && Tallied(vtx, n, a, fees, stake)
    ensures Tallied(vtx, n, a, a.fees, stake)
  {
  }

  /** A block that the checks let through, with its coinstake in its place. */
  ghost predicate Accepted(m: Plain, b: Connected) {
    && BlockChecked(b.vtx) && StakesPlaced(b.vtx) && NewIds(m, b.vtx)
    && (forall i :: 0 <= i < |b.vtx| ==> ValuesOk(b.vtx[i])) && AmountsOk(m, b.vtx, b.height)
  }

  /** What the block may add to the supply: ten thousand coins, or five if its second transaction is a coinstake. */
  function Allowance(b: Connected): int {
    if |b.vtx| > 1 && Creates(b.vtx[1]) then 500000000 else 1000000000000
  }

  lemma BlockSupply(m: Plain, b: Connected)
    requires Accepted(m, b)
    ensures CanApplyBlock(m, b.vtx, b.height)
    ensures Total(ApplyBlock(m, b.vtx, b.height)) <= Total(m) + Allowance(b)
  {
    hide CanApplyBlock, ApplyBlock, AccountsOf, BlockChecked, ValuesOk, NewIds, Total, SpendsOk, Tallied, StakesPlaced;
    var stake := Tally(m, b.vtx, b.height, |b.vtx|);
    assert b.vtx[..|b.vtx|] == b.vtx;
    var a := AccountsOf(m, b.vtx, b.height);
    StakeTallied(b.vtx, a, stake);
    RewardBounds(m, b.vtx, b.height, a.fees, stake);
    SecondIsStake(b.vtx);
  }

  lemma StakeTallied(vtx: seq<Tx>, a: Accounts, stake: int)
    requires Tallied(vtx, |vtx|, a, a.fees, stake)
    ensures IsProofOfStake(vtx) ==> stake == a.stakes
  {
  }

  lemma SecondIsStake(vtx: seq<Tx>)
    requires BlockChecked(vtx)
    ensures IsProofOfStake(vtx) <==> |vtx| > 1 && Creates(vtx[1])
  {
    if |vtx| > 1 {
      CoinBaseIs(vtx[1]);
    }
  }

  ghost predicate AllAccepted(m: Plain, run: seq<Connected>)
    decreases |run|
  {
    run == [] || (
      && Accepted(m, run[0]) && CanApplyBlock(m, run[0].vtx, run[0].height)
      && AllAccepted(ApplyBlock(m, run[0].vtx, run[0].height), run[1..]))
  }

  function Allowances(run: seq<Connected>): int { if run == [] then 0 else Allowance(run[0]) + Allowances(run[1..]) }

  /** The supply law: over every run of accepted blocks the total of all unspent outputs grows by no more
      than what the blocks may add. */
  lemma {:induction false} SupplyIsBounded(m: Plain, run: seq<Connected>)
    requires AllAccepted(m, run)
    ensures CanRun(m, run) && Total(Run(m, run)) <= Total(m) + Allowances(run)
    decreases |run|
  {
    hide Accepted, CanApplyBlock, ApplyBlock, Total, Allowance;
    if run != [] {
      BlockSupply(m, run[0]);
      SupplyIsBounded(ApplyBlock(m, run[0].vtx, run[0].height), run[1..]);
    }
  }
}
