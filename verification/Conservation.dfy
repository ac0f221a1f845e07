/** How much the total of all unspent outputs can grow when a block is connected. */
module Conservation {
  import opened Utxo
  import opened BlockUndo

  const COIN: int := 100_000_000
  const MAX_MONEY: int := 0x7FFF_FFFF_FFFF_FFFF

  predicate MoneyRange(v: int) { 0 <= v <= MAX_MONEY }

  const PROOF_OF_WORK_REWARD: int := 10000 * COIN
  const PROOF_OF_STAKE_REWARD: int := 5 * COIN

  // ---------------------------------------------------------------- amounts

  function Amount(o: TxOut): int { if o.Out? then o.value else 0 }

  function Sum(vout: seq<TxOut>): int {
    if vout == [] then 0 else Sum(vout[..|vout| - 1]) + Amount(vout[|vout| - 1])
  }

  /** The total of all unspent outputs. */
  ghost function Total(m: Plain): int {
    if m == map[] then 0
    else
      var txid :| txid in m;
      Sum(m[txid].vout) + Total(m - {txid})
  }

  lemma {:induction false} TotalWithout(m: Plain, txid: Txid)
    requires txid in m
    ensures Total(m) == Sum(m[txid].vout) + Total(m - {txid})
    decreases |m|
  {
    var first :| first in m && Total(m) == Sum(m[first].vout) + Total(m - {first});
    if first != txid {
      TotalWithout(m - {first}, txid);
      TotalWithout(m - {txid}, first);
      assert m - {first} - {txid} == m - {txid} - {first};
    }
  }

  lemma TotalPut(m: Plain, txid: Txid, c: Coins)
    requires txid !in m
    ensures Total(m[txid := c]) == Total(m) + Sum(c.vout)
  {
    TotalWithout(m[txid := c], txid);
    assert m[txid := c] - {txid} == m;
  }

  lemma {:induction false} SumUpdate(vout: seq<TxOut>, n: nat, o: TxOut)
    requires n < |vout|
    ensures Sum(vout[n := o]) == Sum(vout) - Amount(vout[n]) + Amount(o)
  {
    var k := |vout| - 1;
    if n == k {
      assert vout[n := o][..k] == vout[..k];
    } else {
      assert vout[n := o][..k] == vout[..k][n := o];
      SumUpdate(vout[..k], n, o);
    }
  }

  lemma {:induction false} SumTrim(vout: seq<TxOut>)
    ensures Sum(Trim(vout)) == Sum(vout)
  {
    if vout != [] && vout[|vout| - 1] == Null {
      SumTrim(vout[..|vout| - 1]);
    }
  }

  lemma {:induction false} SumNone(vout: seq<TxOut>)
    requires forall i :: 0 <= i < |vout| ==> vout[i] == Null
    ensures Sum(vout) == 0
  {
    if vout != [] {
      SumNone(vout[..|vout| - 1]);
    }
  }

  // ---------------------------------------------------------------- spending

  function AmountAt(m: Plain, p: OutPoint): int {
    if p.Point? && IsAvailable(Lookup(m, p.hash), p.n) then Amount(Lookup(m, p.hash).vout[p.n]) else 0
  }

  /** GetValueIn: what the inputs are worth in a view. */
  function ValueIn(m: Plain, vin: seq<OutPoint>): int {
    if vin == [] then 0 else AmountAt(m, vin[0]) + ValueIn(m, vin[1..])
  }

  lemma PutTotal(m: Plain, txid: Txid, c: Coins)
    requires txid in m
    ensures Total(Put(m, txid, Visible(c))) == Total(m) - Sum(m[txid].vout) + Sum(c.vout)
  {
    TotalWithout(m, txid);
    var rest := m - {txid};
    if IsPruned(c) {
      SumNone(c.vout);
    } else {
      TotalPut(rest, txid, c);
      assert rest[txid := c] == m[txid := c];
    }
  }

  lemma SpendTotal(m: Plain, p: OutPoint)
    requires CanSpend(m, p)
    ensures Total(SpendPoint(m, p)) == Total(m) - AmountAt(m, p)
  {
    hide Total;
    var c := Lookup(m, p.hash);
    var spent := c.vout[p.n := Null];
    SumUpdate(c.vout, p.n, Null);
    SumTrim(spent);
    SumTrim(Trim(spent));
    PutTotal(m, p.hash, Cleanup(Spend(c, p.n).0));
  }

  /** Spending one output changes no other. */
  lemma OtherAmounts(m: Plain, p: OutPoint, q: OutPoint)
    requires CanSpend(m, p) && CanSpend(SpendPoint(m, p), q)
    ensures CanSpend(m, q) && AmountAt(SpendPoint(m, p), q) == AmountAt(m, q)
  {
    if q.hash == p.hash {
      var c := Lookup(m, p.hash);
      var spent := c.vout[p.n := Null];
      var t := Trim(Trim(spent));
      assert forall i :: 0 <= i < |t| ==> t[i] == Trim(spent)[i] == spent[i];
    }
  }

  lemma {:induction false} LaterCanSpend(m: Plain, p: OutPoint, vin: seq<OutPoint>, i: nat)
    requires CanSpend(m, p) && CanSpendAll(SpendPoint(m, p), vin) && i < |vin|
    ensures CanSpend(SpendPoint(m, p), vin[i])
    decreases i
  {
    hide SpendPoint, CanSpend;
    if i > 0 {
      LaterCanSpend(SpendPoint(m, p), vin[0], vin[1..], i - 1);
      OtherAmounts(SpendPoint(m, p), vin[0], vin[i]);
    }
  }

  lemma {:induction false} LaterAmounts(m: Plain, p: OutPoint, vin: seq<OutPoint>)
    requires CanSpend(m, p) && forall i :: 0 <= i < |vin| ==> CanSpend(SpendPoint(m, p), vin[i])
    ensures ValueIn(SpendPoint(m, p), vin) == ValueIn(m, vin)
  {
    hide SpendPoint, CanSpend, AmountAt;
    if vin != [] {
      OtherAmounts(m, p, vin[0]);
      LaterAmounts(m, p, vin[1..]);
    }
  }

  /** Spending all inputs of a transaction takes what they are worth in the view, no more and no less. */
  lemma {:induction false} SpendAllTotal(m: Plain, vin: seq<OutPoint>)
    requires CanSpendAll(m, vin)
    ensures Total(SpendAll(m, vin)) == Total(m) - ValueIn(m, vin)
    decreases |vin|
  {
    hide Total, SpendPoint, CanSpend, AmountAt;
    if vin != [] {
      SpendTotal(m, vin[0]);
      SpendAllTotal(SpendPoint(m, vin[0]), vin[1..]);
      forall i | 0 <= i < |vin[1..]|
        ensures CanSpend(SpendPoint(m, vin[0]), vin[1..][i])
      {
        LaterCanSpend(m, vin[0], vin[1..], i);
      }
      LaterAmounts(m, vin[0], vin[1..]);
    }
  }

  // ---------------------------------------------------------------- one transaction

  /** Output values that can never be spent: they are not part of the view. */
  function Burned(tx: Tx): int { Sum(tx.vout) - Sum(ClearUnspendableOuts(tx.vout)) }

  lemma {:induction false} SpendSubset(m: Plain, vin: seq<OutPoint>)
    requires CanSpendAll(m, vin)
    ensures forall txid :: txid in SpendAll(m, vin) ==> txid in m
    decreases |vin|
  {
    if vin != [] {
      SpendSubset(SpendPoint(m, vin[0]), vin[1..]);
    }
  }

  /** What a transaction adds to the total. */
  lemma TxTotal(m: Plain, tx: Tx, height: int)
    requires CanSpendAll(m, Inputs(tx)) && tx.id !in m
    ensures Total(ApplyTx(m, tx, height)) == Total(m) - ValueIn(m, Inputs(tx)) + Sum(tx.vout) - Burned(tx)
  {
    hide Total, SpendAll, ValueIn, Inputs;
    var c := FromTx(tx, height);
    SumTrim(ClearUnspendableOuts(tx.vout));
    SpendAllTotal(m, Inputs(tx));
    var rest := SpendAll(m, Inputs(tx));
    SpendSubset(m, Inputs(tx));
    if IsPruned(c) {
      SumNone(c.vout);
      assert rest - {tx.id} == rest;
    } else {
      TotalPut(rest, tx.id, c);
    }
  }

  // ---------------------------------------------------------------- checks

  /** The value checks of CheckTransaction and of GetValueOut. */
  method CheckValues(tx: Tx) returns (ok: bool)
    ensures ok ==>
              0 <= Sum(tx.vout) < 9223372036854775808
              && forall i :: 0 <= i < |tx.vout| ==> tx.vout[i].Out? && 0 <= tx.vout[i].value < 9223372036854775808
    ensures !ok ==>
              exists i ::
                0 <= i < |tx.vout|
                && (tx.vout[i] == Null || !(0 <= tx.vout[i].value < 9223372036854775808)
                    || !(0 <= Sum(tx.vout[..i + 1]) < 9223372036854775808))
  {
    var nValueOut := 0;
    for i := 0 to |tx.vout|
      invariant nValueOut == Sum(tx.vout[..i]) && MoneyRange(nValueOut)
      invariant forall j :: 0 <= j < i ==> tx.vout[j].Out? && MoneyRange(tx.vout[j].value)
    {
      assert tx.vout[..i + 1][..i] == tx.vout[..i];
      if tx.vout[i] == Null || tx.vout[i].value < 0 || tx.vout[i].value > MAX_MONEY {
        return false;
      }
      nValueOut := nValueOut + tx.vout[i].value;
      if !MoneyRange(nValueOut) {
        return false;
      }
    }
    assert tx.vout[..|tx.vout|] == tx.vout;
    return true;
  }

  predicate IsProofOfStake(vtx: seq<Tx>) { |vtx| > 1 && IsCoinStake(vtx[1]) }

  predicate IsEmptyOut(o: TxOut) { o == Out(0, []) }

  /** What CheckBlock makes sure of, as far as amounts are concerned. */
  predicate BlockChecked(vtx: seq<Tx>) {
    && vtx != [] && IsCoinBase(vtx[0])
    && (forall i :: 1 <= i < |vtx| ==> !IsCoinBase(vtx[i]))
    && (IsProofOfStake(vtx) ==>
         |vtx[0].vout| == 1 && IsEmptyOut(vtx[0].vout[0]) && forall i :: 2 <= i < |vtx| ==> !IsCoinStake(vtx[i]))
  }

  /** No transaction but the second one of a proof-of-stake block is a coinstake. */
  predicate StakesPlaced(vtx: seq<Tx>) { forall i :: 0 <= i < |vtx| && i != 1 ==> !IsCoinStake(vtx[i]) }

  function Reward(vtx: seq<Tx>): int { if IsProofOfStake(vtx) then PROOF_OF_STAKE_REWARD else PROOF_OF_WORK_REWARD }

  /** Each of these inputs is in range, and so are they all together. */
  predicate AmountsInRange(m: Plain, vin: seq<OutPoint>) {
    MoneyRange(ValueIn(m, vin)) && forall i :: 0 <= i < |vin| ==> MoneyRange(AmountAt(m, vin[i]))
  }

  const COINBASE_MATURITY := 25

  /** New coins are not spent before their time. */
  predicate Mature(m: Plain, p: OutPoint, height: int)
    requires CanSpend(m, p)
  {
    var coins := Lookup(m, p.hash);
    coins.coinBase || coins.coinStake ==> height - coins.height >= COINBASE_MATURITY
  }

  predicate HaveInputs(m: Plain, vin: seq<OutPoint>) { forall i :: 0 <= i < |vin| ==> CanSpend(m, vin[i]) }

  predicate AllMature(m: Plain, vin: seq<OutPoint>, height: int)
    requires HaveInputs(m, vin)
  {
    forall i :: 0 <= i < |vin| ==> Mature(m, vin[i], height)
  }

  /** What CheckTxInputs lets through. */
  predicate InputsOk(m: Plain, tx: Tx, height: int) {
    && HaveInputs(m, tx.vin) && AllMature(m, tx.vin, height) && AmountsInRange(m, tx.vin)
    && (IsCoinStake(tx) || MoneyRange(ValueIn(m, tx.vin) - Sum(tx.vout)))
  }

  /** All inputs there and mature, every amount and running sum in range, and no more out than in unless a
      coinstake. */
  method CheckTxInputs(m: Plain, tx: Tx, nSpendHeight: int) returns (ok: bool)
    ensures ok <==> InputsOk(m, tx, nSpendHeight)
  {
    hide IsCoinStake;
    if !HaveInputs(m, tx.vin) {
      return false;
    }
    var nValueIn := 0;
    NoInputs(m);
    for i := 0 to |tx.vin|
      invariant nValueIn == ValueIn(m, tx.vin[..i]) && AmountsInRange(m, tx.vin[..i])
      invariant forall k :: 0 <= k < i ==> Mature(m, tx.vin[k], nSpendHeight)
    {
      var coins := Lookup(m, tx.vin[i].hash);
      if coins.coinBase || coins.coinStake {
        if nSpendHeight - coins.height < COINBASE_MATURITY {
          return false;
        }
      }
      assert tx.vin[..i + 1] == tx.vin[..i] + [tx.vin[i]];
      ValueInSnoc(m, tx.vin[..i], tx.vin[i]);
      nValueIn := nValueIn + AmountAt(m, tx.vin[i]);
      if !MoneyRange(AmountAt(m, tx.vin[i])) || !MoneyRange(nValueIn) {
        TooMuch(m, tx.vin, i);
        return false;
      }
    }
    assert tx.vin[..|tx.vin|] == tx.vin;
    if !IsCoinStake(tx) {
      if nValueIn < Sum(tx.vout) {
        return false;
      }
      var nTxFee := nValueIn - Sum(tx.vout);
      if nTxFee < 0 {
        return false;
      }
      if !MoneyRange(nTxFee) {
        return false;
      }
    }
    return true;
  }

  lemma {:induction false} ValueInSnoc(m: Plain, vin: seq<OutPoint>, p: OutPoint)
    ensures ValueIn(m, vin + [p]) == ValueIn(m, vin) + AmountAt(m, p)
  {
    if vin == [] {
      assert [p][1..] == [];
    } else {
      assert (vin + [p])[1..] == vin[1..] + [p];
      ValueInSnoc(m, vin[1..], p);
    }
  }

  /** Amounts that are in range only add to a sum that is out of range already. */
  lemma TooMuch(m: Plain, vin: seq<OutPoint>, i: nat)
    requires i < |vin| && MoneyRange(ValueIn(m, vin[..i]))
    requires !MoneyRange(AmountAt(m, vin[i])) || !MoneyRange(ValueIn(m, vin[..i]) + AmountAt(m, vin[i]))
    ensures !AmountsInRange(m, vin)
  {
    if forall k :: 0 <= k < |vin| ==> MoneyRange(AmountAt(m, vin[k])) {
      assert vin == vin[..i] + [vin[i]] + vin[i + 1..];
      ValueInSnoc(m, vin[..i], vin[i]);
      ValueInJoins(m, vin[..i] + [vin[i]], vin[i + 1..]);
      ValueInPositive(m, vin[i + 1..]);
    }
  }

  lemma {:induction false} ValueInJoins(m: Plain, a: seq<OutPoint>, b: seq<OutPoint>)
    ensures ValueIn(m, a + b) == ValueIn(m, a) + ValueIn(m, b)
  {
    if a == [] {
      assert a + b == b;
    } else {
      assert (a + b)[1..] == a[1..] + b;
      ValueInJoins(m, a[1..], b);
    }
  }

  lemma {:induction false} ValueInPositive(m: Plain, vin: seq<OutPoint>)
    requires forall k :: 0 <= k < |vin| ==> MoneyRange(AmountAt(m, vin[k]))
    ensures ValueIn(m, vin) >= 0
  {
    if vin != [] {
      ValueInPositive(m, vin[1..]);
    }
  }

  // ---------------------------------------------------------------- a block

  lemma {:induction false} BlockSnoc(m: Plain, vtx: seq<Tx>, tx: Tx, height: int)
    requires CanApplyBlock(m, vtx, height)
    ensures CanApplyBlock(m, vtx + [tx], height) <==> CanSpendAll(ApplyBlock(m, vtx, height), Inputs(tx))
    ensures CanApplyBlock(m, vtx + [tx], height) ==>
              ApplyBlock(m, vtx + [tx], height) == ApplyTx(ApplyBlock(m, vtx, height), tx, height)
    decreases |vtx|
  {
    hide ApplyTx, CanSpendAll, Inputs;
    if vtx == [] {
      assert vtx + [tx] == [tx];
      assert [tx][1..] == [];
    } else {
      assert (vtx + [tx])[1..] == vtx[1..] + [tx];
      BlockSnoc(ApplyTx(m, vtx[0], height), vtx[1..], tx, height);
    }
  }

  lemma {:induction false} NewIdStays(m: Plain, vtx: seq<Tx>, height: int, txid: Txid)
    requires CanApplyBlock(m, vtx, height) && txid !in m && forall i :: 0 <= i < |vtx| ==> vtx[i].id != txid
    ensures txid !in ApplyBlock(m, vtx, height)
    decreases |vtx|
  {
    if vtx != [] {
      SpendSubset(m, Inputs(vtx[0]));
      NewIdStays(ApplyTx(m, vtx[0], height), vtx[1..], height, txid);
    }
  }

  /** The accounts of ConnectBlock after some transactions. */
  datatype Accounts = Accounts(fees: int, stakes: int, coinbase: int, burned: int)

  /** Adding the next transaction, in the view it is applied to. */
  function Book(a: Accounts, m: Plain, tx: Tx): Accounts {
    var a' := a.(burned := a.burned + Burned(tx));
    if IsCoinBase(tx) then a'.(coinbase := a.coinbase + Sum(tx.vout))
    else if IsCoinStake(tx) then a'.(stakes := a.stakes + Sum(tx.vout) - ValueIn(m, tx.vin))
    else a'.(fees := a.fees + ValueIn(m, tx.vin) - Sum(tx.vout))
  }

  ghost function AccountsOf(m: Plain, vtx: seq<Tx>, height: int): Accounts
    requires CanApplyBlock(m, vtx, height)
    decreases |vtx|
  {
    if vtx == [] then Accounts(0, 0, 0, 0)
    else
      var init := vtx[..|vtx| - 1];
      BlockInit(m, vtx, height);
      Book(AccountsOf(m, init, height), ApplyBlock(m, init, height), vtx[|vtx| - 1])
  }

  lemma {:induction false} BlockInit(m: Plain, vtx: seq<Tx>, height: int)
    requires CanApplyBlock(m, vtx, height) && vtx != []
    ensures CanApplyBlock(m, vtx[..|vtx| - 1], height)
    decreases |vtx|
  {
    if |vtx| > 1 {
      assert vtx[..|vtx| - 1][1..] == vtx[1..][..|vtx| - 2];
      BlockInit(ApplyTx(m, vtx[0], height), vtx[1..], height);
    }
  }

  /** The total after a block, to the last unit. */
  lemma {:induction false} BlockTotal(m: Plain, vtx: seq<Tx>, height: int)
    requires CanApplyBlock(m, vtx, height) && NewIds(m, vtx)
    ensures var a := AccountsOf(m, vtx, height);
            Total(ApplyBlock(m, vtx, height)) == Total(m) + a.coinbase + a.stakes - a.fees - a.burned
    decreases |vtx|
  {
    hide Total, ApplyTx, CanSpendAll, ValueIn, Burned;
    if vtx != [] {
      var init, tx := vtx[..|vtx| - 1], vtx[|vtx| - 1];
      assert vtx == init + [tx];
      BlockInit(m, vtx, height);
      BlockTotal(m, init, height);
      BlockSnoc(m, init, tx, height);
      NewIdStays(m, init, height, tx.id);
      TxTotal(ApplyBlock(m, init, height), tx, height);
      NoInputs(ApplyBlock(m, init, height));
    }
  }

  lemma NoInputs(m: Plain)
    ensures ValueIn(m, []) == 0
  {
  }

  predicate ValuesOk(tx: Tx) { forall i :: 0 <= i < |tx.vout| ==> tx.vout[i].Out? && tx.vout[i].value >= 0 }

  lemma {:induction false} ClearedSum(vout: seq<TxOut>)
    requires forall i :: 0 <= i < |vout| ==> vout[i].Out? && vout[i].value >= 0
    ensures Sum(ClearUnspendableOuts(vout)) <= Sum(vout)
  {
    if vout != [] {
      var init := vout[..|vout| - 1];
      ClearedSum(init);
      assert ClearUnspendableOuts(vout)[..|vout| - 1] == ClearUnspendableOuts(init);
    }
  }

  /** The first transactions of a block, as far as the reward checks need them. */
  ghost predicate Tallied(vtx: seq<Tx>, n: nat, a: Accounts, nFees: int, nActualStakeReward: int)
    requires n <= |vtx|
  {
    && nFees == a.fees && a.burned >= 0
    && a.coinbase == (if n > 0 then Sum(vtx[0].vout) else 0)
    && (IsProofOfStake(vtx) ==> nActualStakeReward == a.stakes)
    && (!IsProofOfStake(vtx) && StakesPlaced(vtx) ==> a.stakes == 0)
  }

  lemma TalliedNext(m: Plain, vtx: seq<Tx>, n: nat, a: Accounts, nFees: int, nActualStakeReward: int)
    requires BlockChecked(vtx) && n < |vtx| && ValuesOk(vtx[n]) && Tallied(vtx, n, a, nFees, nActualStakeReward)
    requires n <= 1 ==> nActualStakeReward == 0
    ensures var tx := vtx[n];
            var fees := if IsCoinBase(tx) || IsCoinStake(tx) then nFees else nFees + ValueIn(m, tx.vin) - Sum(tx.vout);
            var stake := if !IsCoinBase(tx) && IsCoinStake(tx) then Sum(tx.vout) - ValueIn(m, tx.vin)
                else nActualStakeReward;
            && Tallied(vtx, n + 1, Book(a, m, tx), fees, stake)
            && (n < 1 ==> stake == 0)
  {
    hide ValueIn, Sum;
    ClearedSum(vtx[n].vout);
  }

  /** All inputs are there, every transaction passes CheckTxInputs in the view it is applied to, and the
      block's creator takes no more than the fees and the reward. */
  ghost predicate AmountsOk(m: Plain, vtx: seq<Tx>, height: int) {
    && CanApplyBlock(m, vtx, height) && SpendsOk(m, vtx, height, |vtx|)
    && var a := AccountsOf(m, vtx, height);
       if IsProofOfStake(vtx) then a.stakes <= a.fees + PROOF_OF_STAKE_REWARD
           else FirstOut(vtx) <= a.fees + PROOF_OF_WORK_REWARD
  }

  ghost predicate SpendsOk(m: Plain, vtx: seq<Tx>, height: int, n: nat)
    requires n <= |vtx|
  {
    forall i :: 0 <= i < n && !IsCoinBase(vtx[i]) ==>
          CanApplyBlock(m, vtx[..i], height) && InputsOk(ApplyBlock(m, vtx[..i], height), vtx[i], height)
  }

  lemma {:induction false} BlockPrefix(m: Plain, vtx: seq<Tx>, n: nat, height: int)
    requires CanApplyBlock(m, vtx, height) && n <= |vtx|
    ensures CanApplyBlock(m, vtx[..n], height)
    decreases |vtx|
  {
    if n < |vtx| {
      BlockInit(m, vtx, height);
      BlockPrefix(m, vtx[..|vtx| - 1], n, height);
      assert vtx[..|vtx| - 1][..n] == vtx[..n];
    } else {
      assert vtx[..n] == vtx;
    }
  }

  lemma MissingInput(m: Plain, vtx: seq<Tx>, i: nat, height: int)
    requires i < |vtx| && CanApplyBlock(m, vtx[..i], height)
             && !CanSpendAll(ApplyBlock(m, vtx[..i], height), Inputs(vtx[i]))
    ensures !CanApplyBlock(m, vtx, height)
  {
    hide CanApplyBlock, ApplyBlock, CanSpendAll, Inputs;
    BlockSnoc(m, vtx[..i], vtx[i], height);
    assert vtx[..i + 1] == vtx[..i] + [vtx[i]];
    if CanApplyBlock(m, vtx, height) {
      BlockPrefix(m, vtx, i + 1, height);
    }
  }

  lemma TalliedFees(vtx: seq<Tx>, a: Accounts, nFees: int, nActualStakeReward: int)
    requires Tallied(vtx, |vtx|, a, nFees, nActualStakeReward)
    ensures nFees == a.fees && (IsProofOfStake(vtx) ==> nActualStakeReward == a.stakes)
  {
  }

  /** The amounts part of ConnectBlock: apply the transactions, add up fees and stake, check the reward. */
  method ConnectAmounts(m: Plain, vtx: seq<Tx>, height: int) returns (ok: bool, view: Plain)
    requires BlockChecked(vtx) && NewIds(m, vtx) && forall i :: 0 <= i < |vtx| ==> ValuesOk(vtx[i])
    ensures ok <==> AmountsOk(m, vtx, height)
    ensures ok ==> view == ApplyBlock(m, vtx, height)
    ensures ok ==>
              Total(view) <= Total(m) + Reward(vtx)
              + if IsProofOfStake(vtx) then 0 else AccountsOf(m, vtx, height).stakes
    ensures ok ==> (Total(view) <= Total(m) + Reward(vtx) <==> WithinReward(vtx, AccountsOf(m, vtx, height)))
    ensures ok && StakesPlaced(vtx) ==> Total(view) <= Total(m) + Reward(vtx)
  {
    hide Total, ApplyTx, ApplyBlock, CanApplyBlock, CanSpendAll, ValueIn, Burned, Tallied, Book, BlockChecked, NewIds,
        AccountsOf, ValuesOk, InputsOk;
    view := m;
    var nFees, nActualStakeReward := 0, 0;
    NothingYet(m, vtx, height);
    for i := 0 to |vtx|
      invariant CanApplyBlock(m, vtx[..i], height) && view == ApplyBlock(m, vtx[..i], height)
      invariant Tallied(vtx, i, AccountsOf(m, vtx[..i], height), nFees, nActualStakeReward)
      invariant i <= 1 ==> nActualStakeReward == 0
      invariant SpendsOk(m, vtx, height, i)
    {
      var tx := vtx[i];
      if !CanSpendAll(view, Inputs(tx)) {
        MissingInput(m, vtx, i, height);
        return false, m;
      }
      NextTally(m, vtx, i, height, nFees, nActualStakeReward);
      if !IsCoinBase(tx) {
        if IsCoinStake(tx) {
          nActualStakeReward := Sum(tx.vout) - ValueIn(view, tx.vin);
        } else {
          nFees := nFees + ValueIn(view, tx.vin) - Sum(tx.vout);
        }
        var fine := CheckTxInputs(view, tx, height);
        if !fine {
          return false, m;
        }
      }
      view := ApplyTx(view, tx, height);
    }
    assert vtx[..|vtx|] == vtx;
    TalliedFees(vtx, AccountsOf(m, vtx, height), nFees, nActualStakeReward);
    if !IsProofOfStake(vtx) {
      if FirstOut(vtx) > nFees + PROOF_OF_WORK_REWARD {
        return false, m;
      }
    } else {
      if nActualStakeReward > nFees + PROOF_OF_STAKE_REWARD {
        return false, m;
      }
    }
    RewardBounds(m, vtx, height, nFees, nActualStakeReward);
    return true, view;
  }

  function FirstOut(vtx: seq<Tx>): int { if vtx == [] then 0 else Sum(vtx[0].vout) }

  lemma NothingYet(m: Plain, vtx: seq<Tx>, height: int)
    ensures vtx[..0] == [] && CanApplyBlock(m, vtx[..0], height) && ApplyBlock(m, vtx[..0], height) == m
    ensures Tallied(vtx, 0, AccountsOf(m, vtx[..0], height), 0, 0)
  {
  }

  lemma NextTally(m: Plain, vtx: seq<Tx>, i: nat, height: int, nFees: int, nActualStakeReward: int)
    requires BlockChecked(vtx) && i < |vtx| && ValuesOk(vtx[i]) && CanApplyBlock(m, vtx[..i], height)
    requires CanSpendAll(ApplyBlock(m, vtx[..i], height), Inputs(vtx[i])) && (i <= 1 ==> nActualStakeReward == 0)
    requires Tallied(vtx, i, AccountsOf(m, vtx[..i], height), nFees, nActualStakeReward)
    ensures CanApplyBlock(m, vtx[..i + 1], height)
    ensures ApplyBlock(m, vtx[..i + 1], height) == ApplyTx(ApplyBlock(m, vtx[..i], height), vtx[i], height)
    ensures !IsCoinBase(vtx[i]) ==> Inputs(vtx[i]) == vtx[i].vin
    ensures var tx, view := vtx[i], ApplyBlock(m, vtx[..i], height);
            var fees := if IsCoinBase(tx) || IsCoinStake(tx) then nFees
                else nFees + ValueIn(view, tx.vin) - Sum(tx.vout);
            var stake := if !IsCoinBase(tx) && IsCoinStake(tx) then Sum(tx.vout) - ValueIn(view, tx.vin)
                else nActualStakeReward;
            && Tallied(vtx, i + 1, AccountsOf(m, vtx[..i + 1], height), fees, stake)
            && (i < 1 ==> stake == 0)
    ensures IsCoinBase(vtx[i]) ==> !IsCoinStake(vtx[i])
  {
    hide Total, ApplyTx, ApplyBlock, CanApplyBlock, CanSpendAll, ValueIn, Burned, Tallied, Book, BlockChecked;
    var init, tx := vtx[..i], vtx[i];
    assert vtx[..i + 1] == init + [tx];
    assert vtx[..i + 1][..i] == init;
    BlockSnoc(m, init, tx, height);
    TalliedNext(ApplyBlock(m, init, height), vtx, i, AccountsOf(m, init, height), nFees, nActualStakeReward);
  }

  /** The test that a proof-of-work block would have to pass as well: what its coinbase and the coinstakes
      it should not have take together. */
  predicate WithinReward(vtx: seq<Tx>, a: Accounts) {
    IsProofOfStake(vtx) || FirstOut(vtx) + a.stakes <= a.fees + a.burned + PROOF_OF_WORK_REWARD
  }

  lemma RewardBounds(m: Plain, vtx: seq<Tx>, height: int, nFees: int, nActualStakeReward: int)
    requires BlockChecked(vtx) && NewIds(m, vtx) && CanApplyBlock(m, vtx, height)
    requires Tallied(vtx, |vtx|, AccountsOf(m, vtx, height), nFees, nActualStakeReward)
    requires if IsProofOfStake(vtx) then nActualStakeReward <= nFees + PROOF_OF_STAKE_REWARD
             else FirstOut(vtx) <= nFees + PROOF_OF_WORK_REWARD
    ensures Total(ApplyBlock(m, vtx, height)) <= Total(m) + Reward(vtx)
            + if IsProofOfStake(vtx) then 0 else AccountsOf(m, vtx, height).stakes
    ensures Total(ApplyBlock(m, vtx, height)) <= Total(m) + Reward(vtx) <==>
              WithinReward(vtx, AccountsOf(m, vtx, height))
    ensures StakesPlaced(vtx) ==> Total(ApplyBlock(m, vtx, height)) <= Total(m) + Reward(vtx)
  {
    hide Total, ApplyBlock, CanApplyBlock, NewIds, AccountsOf;
    BlockTotal(m, vtx, height);
    if IsProofOfStake(vtx) {
      EmptySum(vtx[0].vout);
    }
  }

  lemma EmptySum(vout: seq<TxOut>)
    requires |vout| == 1 && IsEmptyOut(vout[0])
    ensures Sum(vout) == 0
  {
    assert vout[..0] == [];
  }

  // ---------------------------------------------------------------- a block that takes more

  const OWNED: Plain := map[1 := Coins(false, false, [Out(1, [1]), Out(1, [1])], 1, 1)]

  const COINBASE: Tx := Tx(10, [NullPoint], [Out(0, [1])], 1)
  const PAYMENT: Tx := Tx(11, [Point(1, 0)], [Out(1, [1])], 1)
  const MISPLACED: Tx := Tx(12, [Point(1, 1)], [Out(0, []), Out(20000 * COIN, [1])], 1)

  lemma OneInput(m: Plain, p: OutPoint)
    requires CanSpend(m, p)
    ensures CanSpendAll(m, [p]) && SpendAll(m, [p]) == SpendPoint(m, p) && ValueIn(m, [p]) == AmountAt(m, p)
  {
    assert [p][1..] == [];
  }

  lemma OthersStay(m: Plain, tx: Tx, height: int, txid: Txid)
    requires CanSpendAll(m, Inputs(tx)) && txid != tx.id && txid in SpendAll(m, Inputs(tx))
    ensures txid in ApplyTx(m, tx, height) && ApplyTx(m, tx, height)[txid] == SpendAll(m, Inputs(tx))[txid]
  {
  }

  lemma PaymentSpends(m: Plain, height: int)
    requires 1 in m && m[1] == OWNED[1]
    ensures CanSpendAll(m, Inputs(PAYMENT)) && ValueIn(m, PAYMENT.vin) == 1
    ensures var m' := ApplyTx(m, PAYMENT, height); 1 in m' && m'[1] == OWNED[1].(vout := [Null, Out(1, [1])])
  {
    var p := Point(1, 0);
    assert Inputs(PAYMENT) == [p];
    OneInput(m, p);
    assert OWNED[1].vout[0 := Null] == [Null, Out(1, [1])];
    var c := Spend(m[1], 0).0;
    assert c.vout == [Null, Out(1, [1])] && Cleanup(c) == c;
    assert c.vout[1] != Null;
    OthersStay(m, PAYMENT, height, 1);
  }

  lemma MisplacedSpends(m: Plain)
    requires 1 in m && m[1] == OWNED[1].(vout := [Null, Out(1, [1])])
    ensures CanSpendAll(m, Inputs(MISPLACED)) && ValueIn(m, MISPLACED.vin) == 1
  {
    assert Inputs(MISPLACED) == [Point(1, 1)];
    OneInput(m, Point(1, 1));
  }

  lemma SmallSums()
    ensures Sum(COINBASE.vout) == 0 && Sum(PAYMENT.vout) == 1 && Sum(MISPLACED.vout) == 20000 * COIN
    ensures Burned(COINBASE) == 0 && Burned(PAYMENT) == 0 && Burned(MISPLACED) == 0
    ensures IsCoinBase(COINBASE) && !IsCoinBase(PAYMENT) && !IsCoinStake(PAYMENT) && !IsCoinBase(MISPLACED)
            && IsCoinStake(MISPLACED)
  {
    assert COINBASE.vout[..0] == [] && PAYMENT.vout[..0] == [] && MISPLACED.vout[..1] == [Out(0, [])]
           && [Out(0, [])][..0] == [];
    assert ClearUnspendableOuts(COINBASE.vout) == COINBASE.vout && ClearUnspendableOuts(PAYMENT.vout) == PAYMENT.vout;
    assert ClearUnspendableOuts(MISPLACED.vout) == MISPLACED.vout;
  }

  const MINTING: seq<Tx> := [COINBASE, PAYMENT, MISPLACED]

  /** The views between the transactions of the block, and its accounts. */
  lemma MintingViews(height: int)
    ensures MINTING[..0] == [] && MINTING[..1] == [COINBASE] && MINTING[..2] == [COINBASE, PAYMENT]
    ensures CanApplyBlock(OWNED, MINTING[..1], height) && CanApplyBlock(OWNED, MINTING[..2], height)
    ensures var m := ApplyBlock(OWNED, MINTING[..1], height); 1 in m && m[1] == OWNED[1]
    ensures var m := ApplyBlock(OWNED, MINTING[..2], height); 1 in m && m[1] == OWNED[1].(vout := [Null, Out(1, [1])])
  {
    hide ApplyTx, CanSpendAll, SpendAll;
    SmallSums();
    assert MINTING[..1] == [COINBASE] && MINTING[..2] == [COINBASE] + [PAYMENT];
    assert [COINBASE][1..] == [];
    NoSpends(OWNED);
    OthersStay(OWNED, COINBASE, height, 1);
    var m1 := ApplyTx(OWNED, COINBASE, height);
    PaymentSpends(m1, height);
    BlockSnoc(OWNED, [COINBASE], PAYMENT, height);
  }

  lemma NoSpends(m: Plain)
    ensures CanSpendAll(m, []) && SpendAll(m, []) == m
  {
  }

  /** A proof-of-work block that passes all checks on amounts although a coinstake that is not in the
      place for it takes more than fees and reward. */
  lemma MisplacedStakeMints(height: int)
    ensures BlockChecked(MINTING) && NewIds(OWNED, MINTING) && (forall i :: 0 <= i < |MINTING| ==> ValuesOk(MINTING[i]))
    ensures AmountsOk(OWNED, MINTING, height) && !StakesPlaced(MINTING) && !IsProofOfStake(MINTING)
    ensures Total(ApplyBlock(OWNED, MINTING, height)) > Total(OWNED) + Reward(MINTING)
  {
    hide ApplyTx, ApplyBlock, CanApplyBlock, CanSpendAll, SpendAll, ValueIn, Sum, Burned, Total;
    SmallSums();
    MintingViews(height);
    var m1, m2 := ApplyBlock(OWNED, MINTING[..1], height), ApplyBlock(OWNED, MINTING[..2], height);
    PaymentSpends(m1, height);
    MisplacedSpends(m2);
    BlockSnoc(OWNED, MINTING[..2], MISPLACED, height);
    assert MINTING == MINTING[..2] + [MISPLACED];
    MintingInputs(m1, m2, height);
    MintingAccounts(height);
    BlockTotal(OWNED, MINTING, height);
  }

  lemma MintingInputs(m1: Plain, m2: Plain, height: int)
    requires 1 in m1 && m1[1] == OWNED[1] && 1 in m2 && m2[1] == OWNED[1].(vout := [Null, Out(1, [1])])
    ensures InputsOk(m1, PAYMENT, height) && InputsOk(m2, MISPLACED, height)
  {
    PaymentSpends(m1, 0);
    MisplacedSpends(m2);
    SmallSums();
  }

  lemma MintingAccounts(height: int)
    ensures CanApplyBlock(OWNED, MINTING, height)
    ensures AccountsOf(OWNED, MINTING, height) == Accounts(0, 20000 * COIN - 1, 0, 0)
  {
    hide ApplyTx, ApplyBlock, CanApplyBlock, CanSpendAll, SpendAll, ValueIn, Sum, Burned;
    SmallSums();
    MintingViews(height);
    var m1, m2 := ApplyBlock(OWNED, MINTING[..1], height), ApplyBlock(OWNED, MINTING[..2], height);
    PaymentSpends(m1, height);
    MisplacedSpends(m2);
    BlockSnoc(OWNED, MINTING[..2], MISPLACED, height);
    assert MINTING == MINTING[..2] + [MISPLACED];
    assert MINTING[..2][..1] == MINTING[..1] && MINTING[..1][..0] == [];
    assert AccountsOf(OWNED, MINTING[..1], height) == Accounts(0, 0, 0, 0);
    assert AccountsOf(OWNED, MINTING[..2], height) == Accounts(0, 0, 0, 0);
  }
}
