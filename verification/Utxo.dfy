/** CCoins: the unspent outputs of one transaction, with the metadata needed to spend them. */
module Utxo {

  type Txid = nat

  /** A spent output is Null (nValue == -1 in the code). */
  datatype TxOut = Null | Out(value: int, script: seq<nat>)

  datatype Coins = Coins(coinBase: bool, coinStake: bool, vout: seq<TxOut>, height: int, version: int)

  datatype Option<+T> = None | Some(value: T)

  const CLEARED: Coins := Coins(false, false, [], 0, 0)

  predicate IsPruned(c: Coins) { forall i :: 0 <= i < |c.vout| ==> c.vout[i] == Null }

  predicate IsAvailable(c: Coins, n: nat) { n < |c.vout| && c.vout[n] != Null }

  predicate Trimmed(vout: seq<TxOut>) { vout == [] || vout[|vout| - 1] != Null }

  /** The loop of Cleanup: drop spent outputs at the end. */
  function Trim(vout: seq<TxOut>): (r: seq<TxOut>)
    ensures Trimmed(r) && r <= vout
    ensures forall i :: |r| <= i < |vout| ==> vout[i] == Null
  {
    if vout != [] && vout[|vout| - 1] == Null then Trim(vout[..|vout| - 1]) else vout
  }

  function Cleanup(c: Coins): Coins { c.(vout := Trim(c.vout)) }

  /** Mark output n spent; false when there is no such unspent output. */
  function Spend(c: Coins, n: nat): (r: (Coins, bool))
    ensures r.1 <==> IsAvailable(c, n)
    ensures !r.1 ==> r.0 == c
    ensures r.1 ==> Trimmed(r.0.vout) && !IsAvailable(r.0, n)
    ensures r.1 ==> forall m :: m != n ==> (IsAvailable(r.0, m) <==> IsAvailable(c, m))
  {
    if IsAvailable(c, n) then
      CleanupKeepsOutputs(c.(vout := c.vout[n := Null]));
      (Cleanup(c.(vout := c.vout[n := Null])), true)
    else (c, false)
  }

  /** operator==: fully spent entries are all equal. */
  predicate Equal(a: Coins, b: Coins) { (IsPruned(a) && IsPruned(b)) || a == b }

  /** What a reader can tell from an entry: a pruned one counts as absent. */
  function Visible(c: Coins): Option<Coins> { if IsPruned(c) then None else Some(c) }

  lemma TrimmedPruned(c: Coins)
    requires Trimmed(c.vout)
    ensures IsPruned(c) <==> c.vout == []
  {
    if c.vout != [] {
      assert c.vout[|c.vout| - 1] != Null;
    }
  }

  lemma CleanupKeepsOutputs(c: Coins)
    ensures IsPruned(c) <==> IsPruned(Cleanup(c))
    ensures forall n :: IsAvailable(c, n) <==> IsAvailable(Cleanup(c), n)
  {
    var t := Trim(c.vout);
    forall i | 0 <= i < |t|
      ensures t[i] == c.vout[i]
    {}
  }

  /** Bytes allocated for one output: its slot in the vector and its script. */
  function OutUsage(o: TxOut): nat { 40 + if o.Out? then |o.script| else 0 }

  function VoutUsage(vout: seq<TxOut>): nat {
    if vout == [] then 0 else OutUsage(vout[0]) + VoutUsage(vout[1..])
  }

  /** DynamicMemoryUsage, for a vector whose capacity is its size. */
  function Usage(c: Coins): nat { VoutUsage(c.vout) }

  lemma UsageZero(c: Coins)
    ensures Usage(c) == 0 <==> c.vout == []
  {}

  // ---------------------------------------------------------------- transactions

  datatype OutPoint = NullPoint | Point(hash: Txid, n: nat)

  datatype Tx = Tx(id: Txid, vin: seq<OutPoint>, vout: seq<TxOut>, version: int)

  const OP_RETURN: nat := 0x6a
  const MAX_SCRIPT_SIZE: nat := 201 * 1024

  predicate IsUnspendable(script: seq<nat>) {
    (|script| > 0 && script[0] == OP_RETURN) || |script| > MAX_SCRIPT_SIZE
  }

  predicate IsCoinBase(tx: Tx) { |tx.vin| == 1 && tx.vin[0] == NullPoint && |tx.vout| >= 1 }

  /** The coinstake is marked by an empty first output. */
  predicate IsCoinStake(tx: Tx) {
    |tx.vin| > 0 && tx.vin[0] != NullPoint && |tx.vout| >= 2 && tx.vout[0] == Out(0, [])
  }

  function ClearUnspendableOuts(vout: seq<TxOut>): (r: seq<TxOut>)
    ensures |r| == |vout|
    ensures forall i ::
              0 <= i < |vout| ==> r[i] == if vout[i].Out? && IsUnspendable(vout[i].script) then Null else vout[i]
  {
    seq(|vout|, i requires 0 <= i < |vout| => if vout[i].Out? && IsUnspendable(vout[i].script) then Null else vout[i])
  }

  function ClearUnspendable(c: Coins): Coins { Cleanup(c.(vout := ClearUnspendableOuts(c.vout))) }

  /** The unspent outputs of a transaction included at a height. */
  function FromTx(tx: Tx, height: int): (c: Coins)
    ensures Trimmed(c.vout)
  {
    ClearUnspendable(Coins(IsCoinBase(tx), IsCoinStake(tx), tx.vout, height, tx.version))
  }

  /** Trimming and clearing again changes nothing. */
  lemma {:induction false} TrimIdle(vout: seq<TxOut>)
    requires Trimmed(vout)
    ensures Trim(vout) == vout
  {}

  lemma ClearUnspendableIdle(tx: Tx, height: int)
    ensures ClearUnspendable(FromTx(tx, height)) == FromTx(tx, height)
  {
    var c := FromTx(tx, height);
    var cleared := ClearUnspendableOuts(tx.vout);
    assert c.vout == cleared[..|c.vout|];
    assert ClearUnspendableOuts(c.vout) == c.vout;
    TrimIdle(c.vout);
  }

  // ---------------------------------------------------------------- the plain map of unspent coins

  type Plain = map<Txid, Coins>

  function Get(m: Plain, txid: Txid): Option<Coins> { if txid in m then Some(m[txid]) else None }

  function Put(m: Plain, txid: Txid, o: Option<Coins>): Plain {
    if o.Some? then m[txid := o.value] else m - {txid}
  }

  /** Every entry holds an unspent output, trimmed. */
  ghost predicate Tidy(m: Plain) {
    forall txid :: txid in m ==> Trimmed(m[txid].vout) && !IsPruned(m[txid])
  }
}
