/** Compact blocks (BIP 152): where short ids and prefilled transactions belong, and putting a
    block together again from them, the mempool and the transactions asked for. */
module CompactBlock {

  const MAX_BLOCK_BASE_SIZE: nat := 1_000_000
  const MIN_TRANSACTION_BASE_SIZE: nat := 10
  const MAX_INDEX: nat := 0xFFFF

  /** A pointer to a transaction that may be null. */
  datatype Slot<T> = Empty | Has(tx: T)

  datatype Prefilled<T> = Prefilled(index: nat, tx: Slot<T>)

  /** `index` counts the positions skipped since the last prefilled transaction. */
  datatype Message<T> = Message(shorttxids: seq<nat>, prefilledtxn: seq<Prefilled<T>>)

  /** Endless stands for a call that does not return. */
  datatype Status = Ok | Invalid | Failed | Endless

  /** What the checks of a block say of it; a wrong Merkle root may be due to colliding short ids. */
  datatype Verdict = Sound | CorruptionPossible | Wrong

  function StatusOf(v: Verdict): Status {
    match v
    case Sound => Ok
    case CorruptionPossible => Failed
    case Wrong => Invalid
  }

  function TxCount<T>(m: Message<T>): nat { |m.shorttxids| + |m.prefilledtxn| }

  /** The position in the block of prefilled transaction i. */
  function Position<T>(p: seq<Prefilled<T>>, i: nat): nat
    requires i < |p|
  {
    if i == 0 then p[0].index else Position(p, i - 1) + p[i].index + 1
  }

  /** Prefilled transaction i is there, and in front of it there is something for every position. */
  predicate Fits<T>(m: Message<T>, i: nat)
    requires i < |m.prefilledtxn|
  {
    m.prefilledtxn[i].tx.Has? && Position(m.prefilledtxn, i) <= MAX_INDEX
      && Position(m.prefilledtxn, i) <= |m.shorttxids| + i
  }

  /** What makes a message acceptable, collisions aside. */
  ghost predicate WellFormed<T>(m: Message<T>) {
    && TxCount(m) > 0 && TxCount(m) <= MAX_BLOCK_BASE_SIZE / MIN_TRANSACTION_BASE_SIZE
    && forall i :: 0 <= i < |m.prefilledtxn| ==> Fits(m, i)
  }

  // ---------------------------------------------------------------- free positions

  /** The positions from p on that are still empty, in order. */
  function FreeSlots<T>(avail: seq<Slot<T>>, p: nat): (free: seq<nat>)
    requires p <= |avail|
    ensures |free| <= |avail| - p
    ensures forall k :: 0 <= k < |free| ==> p <= free[k] < |avail| && avail[free[k]] == Empty
    decreases |avail| - p
  {
    if p == |avail| then [] else if avail[p] == Empty then [p] + FreeSlots(avail, p + 1) else FreeSlots(avail, p + 1)
  }

  /** They are in ascending order and none is left out. */
  lemma {:induction false} FreeSlotsAre<T>(avail: seq<Slot<T>>, p: nat)
    requires p <= |avail|
    ensures forall j, k :: 0 <= j < k < |FreeSlots(avail, p)| ==> FreeSlots(avail, p)[j] < FreeSlots(avail, p)[k]
    ensures forall q :: p <= q < |avail| && avail[q] == Empty ==> q in FreeSlots(avail, p)
    decreases |avail| - p
  {
    if p < |avail| {
      FreeSlotsAre(avail, p + 1);
    }
  }

  lemma {:induction false} TakeSlot<T>(avail: seq<Slot<T>>, p: nat, q: nat, t: T)
    requires p <= |avail| && q < |avail| && avail[q] == Empty
    ensures |FreeSlots(avail[q := Has(t)], p)| == |FreeSlots(avail, p)| - if q >= p then 1 else 0
    decreases |avail| - p
  {
    if p < |avail| {
      TakeSlot(avail, p + 1, q, t);
    }
  }

  lemma {:induction false} AllFree<T>(avail: seq<Slot<T>>, p: nat)
    requires p <= |avail| && forall q :: 0 <= q < |avail| ==> avail[q] == Empty
    ensures |FreeSlots(avail, p)| == |avail| - p
    decreases |avail| - p
  {
    if p < |avail| {
      AllFree(avail, p + 1);
    }
  }

  // ---------------------------------------------------------------- prefilled transactions

  /** The vector after the first n prefilled transactions. */
  ghost predicate PrefilledSoFar<T>(m: Message<T>, n: nat, avail: seq<Slot<T>>) {
    && n <= |m.prefilledtxn| && |avail| == TxCount(m)
    && |FreeSlots(avail, 0)| == TxCount(m) - n
    && (forall i {:trigger Position(m.prefilledtxn, i)} :: 0 <= i < n ==>
          Position(m.prefilledtxn, i) < |avail| && avail[Position(m.prefilledtxn, i)] == m.prefilledtxn[i].tx)
    && (forall q :: 0 <= q < |avail| && (n == 0 || q > Position(m.prefilledtxn, n - 1)) ==> avail[q] == Empty)
    && (forall q :: 0 <= q < |avail| && avail[q].Has? ==> exists i :: 0 <= i < n && Position(m.prefilledtxn, i) == q)
  }

  lemma PrefilledNone<T>(m: Message<T>, avail: seq<Slot<T>>)
    requires |avail| == TxCount(m) && forall q :: 0 <= q < |avail| ==> avail[q] == Empty
    ensures PrefilledSoFar(m, 0, avail)
  {
    AllFree(avail, 0);
  }

  lemma PrefilledNext<T>(m: Message<T>, n: nat, avail: seq<Slot<T>>)
    requires PrefilledSoFar(m, n, avail) && n < |m.prefilledtxn| && m.prefilledtxn[n].tx.Has?
    requires Position(m.prefilledtxn, n) <= |m.shorttxids| + n
    ensures PrefilledSoFar(m, n + 1, avail[Position(m.prefilledtxn, n) := m.prefilledtxn[n].tx])
  {
    var q := Position(m.prefilledtxn, n);
    TakeSlot(avail, 0, q, m.prefilledtxn[n].tx.tx);
    var next := avail[q := m.prefilledtxn[n].tx];
    forall p | 0 <= p < |next| && next[p].Has?
      ensures exists i :: 0 <= i < n + 1 && Position(m.prefilledtxn, i) == p
    {
      if p != q {
        assert avail[p].Has?;
      }
    }
    forall i | 0 <= i < n
      ensures next[Position(m.prefilledtxn, i)] == m.prefilledtxn[i].tx
    {
      PositionsAscend(m.prefilledtxn, i, n);
    }
  }

  lemma {:induction false} PositionsAscend<T>(p: seq<Prefilled<T>>, i: nat, j: nat)
    requires i < j < |p|
    ensures Position(p, i) < Position(p, j)
    decreases j
  {
    if i < j - 1 {
      PositionsAscend(p, i, j - 1);
    }
  }

  // ---------------------------------------------------------------- the mempool

  /** What scanning the first n mempool entries finds for a short id: whether any matched, and the
      match if there was exactly one. */
  function Found<T>(shortId: T -> nat, pool: seq<T>, n: nat, id: nat): (r: (bool, Slot<T>))
    requires n <= |pool|
    ensures r.1.Has? ==> r.0 && r.1.tx in pool && shortId(r.1.tx) == id
  {
    if n == 0 then (false, Empty)
    else
      var (have, slot) := Found(shortId, pool, n - 1, id);
      if shortId(pool[n - 1]) != id then (have, slot)
      else if !have then (true, Has(pool[n - 1]))
      else (true, Empty)
  }

  /** After the scan the i-th short id's slot holds what was found for it; prefilled ones are untouched. */
  ghost predicate ScannedSoFar<T(!new)>(m: Message<T>, base: seq<Slot<T>>, slots: seq<nat>, shortId: T -> nat,
      pool: seq<T>, n: nat, avail: seq<Slot<T>>) {
    && n <= |pool| && |avail| == |base| && |slots| == |m.shorttxids|
    && (forall j {:trigger slots[j]} ::
         0 <= j < |slots| ==> slots[j] < |avail| && avail[slots[j]] == Found(shortId, pool, n, m.shorttxids[j]).1)
    && (forall q :: 0 <= q < |avail| && q !in slots ==> avail[q] == base[q])
  }

  lemma ScanNone<T(!new)>(m: Message<T>, base: seq<Slot<T>>, slots: seq<nat>, shortId: T -> nat, pool: seq<T>)
    requires |slots| == |m.shorttxids| && forall j :: 0 <= j < |slots| ==> slots[j] < |base| && base[slots[j]] == Empty
    ensures ScannedSoFar(m, base, slots, shortId, pool, 0, base)
  {
  }

  /** One more mempool entry, whose short id belongs to slot j. */
  lemma ScanHit<T(!new)>(m: Message<T>, base: seq<Slot<T>>, slots: seq<nat>, shortId: T -> nat, pool: seq<T>, n: nat,
      avail: seq<Slot<T>>, j: nat)
    requires ScannedSoFar(m, base, slots, shortId, pool, n, avail) && n < |pool| && j < |slots|
             && Apart(m.shorttxids, slots)
    requires shortId(pool[n]) == m.shorttxids[j]
    ensures ScannedSoFar(m, base, slots, shortId, pool, n + 1,
            avail[slots[j] := Found(shortId, pool, n + 1, m.shorttxids[j]).1])
  {
    hide Found, Apart;
    var x := Found(shortId, pool, n + 1, m.shorttxids[j]).1;
    forall k | 0 <= k < |slots|
      ensures slots[k] < |avail| && avail[slots[j] := x][slots[k]] == Found(shortId, pool, n + 1, m.shorttxids[k]).1
    {
      if k != j {
        ApartAt(m.shorttxids, slots, j, k);
        FoundOther(shortId, pool, n, m.shorttxids[k]);
      }
    }
    HitElsewhere(base, avail, slots, slots[j], x);
  }

  lemma HitElsewhere<T>(base: seq<Slot<T>>, avail: seq<Slot<T>>, slots: seq<nat>, s: nat, x: Slot<T>)
    requires |avail| == |base| && s in slots && s < |avail|
    requires forall q :: 0 <= q < |avail| && q !in slots ==> avail[q] == base[q]
    ensures forall q :: 0 <= q < |avail| && q !in slots ==> avail[s := x][q] == base[q]
  {
  }

  lemma ScanMiss<T(!new)>(m: Message<T>, base: seq<Slot<T>>, slots: seq<nat>, shortId: T -> nat, pool: seq<T>, n: nat,
      avail: seq<Slot<T>>)
    requires ScannedSoFar(m, base, slots, shortId, pool, n, avail) && n < |pool| && shortId(pool[n]) !in m.shorttxids
    ensures ScannedSoFar(m, base, slots, shortId, pool, n + 1, avail)
  {
    hide Found;
    forall k | 0 <= k < |slots|
      ensures avail[slots[k]] == Found(shortId, pool, n + 1, m.shorttxids[k]).1
    {
      FoundOther(shortId, pool, n, m.shorttxids[k]);
    }
  }

  lemma FoundOther<T>(shortId: T -> nat, pool: seq<T>, n: nat, id: nat)
    requires n < |pool| && shortId(pool[n]) != id
    ensures Found(shortId, pool, n + 1, id) == Found(shortId, pool, n, id)
  {
  }

  /** Short ids and slots belong together one to one. */
  ghost predicate Apart(ids: seq<nat>, slots: seq<nat>) {
    && |ids| == |slots|
    && (forall j, k :: 0 <= j < k < |ids| ==> ids[j] != ids[k])
    && (forall j, k :: 0 <= j < k < |slots| ==> slots[j] < slots[k])
  }

  predicate Unrepeated(ids: seq<nat>) { forall j, k :: 0 <= j < k < |ids| ==> ids[j] != ids[k] }

  /** No bucket holds more than 12 ids; `bucketSize` tells how full the bucket of the last id is. */
  predicate Even(ids: seq<nat>, bucketSize: seq<nat> -> nat) {
    forall n :: 0 < n <= |ids| ==> bucketSize(ids[..n]) <= 12
  }

  lemma ApartAt(ids: seq<nat>, slots: seq<nat>, j: nat, k: nat)
    requires Apart(ids, slots) && j < |ids| && k < |ids| && j != k
    ensures ids[j] != ids[k] && slots[j] != slots[k]
  {
    assert j < k || k < j;
  }

  // ---------------------------------------------------------------- the 16-bit offset

  predicate EmptyBeyond<T(==)>(avail: seq<Slot<T>>) { forall p :: MAX_INDEX < p < |avail| ==> avail[p] == Empty }

  /** What a 16-bit number keeps. */
  function Low16(x: nat): (r: nat)
    ensures r <= MAX_INDEX
  {
    x % (MAX_INDEX + 1)
  }

  /** The slot looked at in round k of the first search is occupied, whatever k is. */
  ghost predicate NeverEnds<T>(avail: seq<Slot<T>>) {
    |avail| > MAX_INDEX && forall k: nat {:trigger Low16(k)} :: avail[Low16(k)].Has?
  }

  lemma {:induction false} FreeAll<T>(avail: seq<Slot<T>>, q: nat)
    requires q <= |avail| && forall p :: q <= p < |avail| ==> avail[p] == Empty
    ensures |FreeSlots(avail, q)| == |avail| - q
    decreases |avail| - q
  {
    if q < |avail| {
      FreeAll(avail, q + 1);
    }
  }

  lemma {:induction false} FreeBelow<T>(avail: seq<Slot<T>>, p: nat, q: nat)
    requires p <= q <= |avail|
    ensures |FreeSlots(avail, p)| >= |FreeSlots(avail, q)|
    ensures (exists o :: p <= o < q && avail[o] == Empty) ==> |FreeSlots(avail, p)| > |FreeSlots(avail, q)|
    decreases q - p
  {
    if p < q {
      FreeBelow(avail, p + 1, q);
    }
  }

  /** An empty slot among the first 65536 means that at most 65535 are occupied. */
  lemma FewOccupied<T>(avail: seq<Slot<T>>, o: nat)
    requires EmptyBeyond(avail) && o <= MAX_INDEX && o < |avail| && avail[o] == Empty
    ensures |avail| - |FreeSlots(avail, 0)| <= MAX_INDEX
  {
    hide FreeSlots;
    var q := if |avail| <= MAX_INDEX then |avail| else MAX_INDEX + 1;
    FreeBelow(avail, 0, q);
    FreeAll(avail, q);
  }

  /** The search for the first free slot ends if and only if at most 65535 transactions are prefilled. */
  lemma SearchEnds<T>(m: Message<T>, base: seq<Slot<T>>)
    requires WellFormed(m) && PrefilledSoFar(m, |m.prefilledtxn|, base) && m.shorttxids != []
    ensures NeverEnds(base) <==> |m.prefilledtxn| > 65535
  {
    PrefilledFree(m, base);
    BeyondAreEmpty(m, base);
    hide FreeSlots, WellFormed, PrefilledSoFar;
    if o :| 0 <= o <= MAX_INDEX && o < |base| && base[o] == Empty {
      FewOccupied(base, o);
      assert Low16(o) == o;
    } else {
      NoneBelow(base);
    }
  }

  /** One short id and 65536 prefilled transactions without a gap. */
  function Gapless<T>(t: T): Message<T> { Message([0], seq(MAX_INDEX + 1, _ => Prefilled(0, Has(t)))) }

  lemma {:induction false} GaplessPosition<T>(t: T, i: nat)
    requires i <= MAX_INDEX
    ensures Position(Gapless(t).prefilledtxn, i) == i
  {
    if i > 0 {
      GaplessPosition(t, i - 1);
    }
  }

  /** A well-formed message for which the search does not end. */
  lemma EndlessMessage<T>(t: T, base: seq<Slot<T>>)
    ensures WellFormed(Gapless(t))
    ensures PrefilledSoFar(Gapless(t), MAX_INDEX + 1, base) ==> NeverEnds(base)
  {
    var m := Gapless(t);
    forall i | 0 <= i < |m.prefilledtxn|
      ensures Fits(m, i)
    {
      GaplessPosition(t, i);
    }
    if PrefilledSoFar(m, MAX_INDEX + 1, base) {
      SearchEnds(m, base);
    }
  }

  lemma NoneBelow<T>(base: seq<Slot<T>>)
    requires |FreeSlots(base, 0)| > 0 && forall o :: 0 <= o <= MAX_INDEX && o < |base| ==> base[o] != Empty
    ensures NeverEnds(base) && |base| - |FreeSlots(base, 0)| > MAX_INDEX
  {
    var q := if |base| <= MAX_INDEX then |base| else MAX_INDEX + 1;
    NoneFree(base, 0, q);
  }

  lemma {:induction false} NoneFree<T>(avail: seq<Slot<T>>, p: nat, q: nat)
    requires p <= q <= |avail| && forall o :: p <= o < q ==> avail[o] != Empty
    ensures |FreeSlots(avail, p)| == |FreeSlots(avail, q)|
    decreases q - p
  {
    if p < q {
      NoneFree(avail, p + 1, q);
    }
  }

  // ---------------------------------------------------------------- where mempool entries land

  /** What the first n mempool entries do to the slot at p: whether one matched, and the only one that did. */
  function Landed<T>(index: map<nat, nat>, shortId: T -> nat, pool: seq<T>, n: nat, p: nat): (bool, Slot<T>)
    requires n <= |pool|
  {
    if n == 0 then (false, Empty)
    else
      var before, id := Landed(index, shortId, pool, n - 1, p), shortId(pool[n - 1]);
      if id in index && index[id] == p then (true, if before.0 then Empty else Has(pool[n - 1])) else before
  }

  ghost predicate Landing<T(!new)>(
    index: map<nat, nat>, shortId: T -> nat, pool: seq<T>, n: nat, base: seq<Slot<T>>, avail: seq<Slot<T>>) {
    && n <= |pool| && |avail| == |base|
    && forall p :: 0 <= p < |avail| ==>
         avail[p] == var l := Landed(index, shortId, pool, n, p); if l.0 then l.1 else base[p]
  }

  ghost predicate HaveLanded<T(!new)>(
    index: map<nat, nat>, shortId: T -> nat, pool: seq<T>, n: nat, have: seq<bool>) {
    n <= |pool| && forall p :: 0 <= p < |have| ==> have[p] == Landed(index, shortId, pool, n, p).0
  }

  lemma LandNone<T(!new)>(
    index: map<nat, nat>, shortId: T -> nat, pool: seq<T>, base: seq<Slot<T>>, have: seq<bool>)
    requires forall p :: 0 <= p < |have| ==> !have[p]
    ensures Landing(index, shortId, pool, 0, base, base) && HaveLanded(index, shortId, pool, 0, have)
  {
  }

  lemma LandStep<T(!new)>(
    index: map<nat, nat>, shortId: T -> nat, pool: seq<T>, n: nat, base: seq<Slot<T>>, avail: seq<Slot<T>>,
    have: seq<bool>)
    requires n < |pool| && |have| == |avail| && shortId(pool[n]) in index && index[shortId(pool[n])] < |avail|
    requires Landing(index, shortId, pool, n, base, avail) && HaveLanded(index, shortId, pool, n, have)
    ensures var pos := index[shortId(pool[n])];
            && Landing(index, shortId, pool, n + 1, base, Matched(avail, have, pos, pool[n]))
            && HaveLanded(index, shortId, pool, n + 1, have[pos := true])
  {
  }

  lemma LandMiss<T(!new)>(
    index: map<nat, nat>, shortId: T -> nat, pool: seq<T>, n: nat, base: seq<Slot<T>>, avail: seq<Slot<T>>,
    have: seq<bool>)
    requires n < |pool| && shortId(pool[n]) !in index
    requires Landing(index, shortId, pool, n, base, avail) && HaveLanded(index, shortId, pool, n, have)
    ensures Landing(index, shortId, pool, n + 1, base, avail) && HaveLanded(index, shortId, pool, n + 1, have)
  {
  }

  /** With more than 65536 transactions, a mempool entry for the one at 65536 takes the place of the first. */
  lemma FirstIsReplaced<T(!new)>(
    m: Message<T>, base: seq<Slot<T>>, slots: seq<nat>, index: map<nat, nat>, shortId: T -> nat, t: T) returns (j: nat)
    requires WellFormed(m) && PrefilledSoFar(m, |m.prefilledtxn|, base) && slots == FreeSlots(base, 0)
    requires Indexed(m.shorttxids, slots, index) && TxCount(m) > MAX_INDEX + 1
    ensures j < |m.shorttxids| == |slots| && slots[j] == MAX_INDEX + 1
    ensures shortId(t) == m.shorttxids[j] ==> Landed(index, shortId, [t], 1, 0) == (true, Has(t))
  {
    PrefilledFree(m, base);
    hide FreeSlots, PrefilledSoFar, WellFormed;
    FreeSlotsAre(base, 0);
    BeyondIsEmpty(m, base, MAX_INDEX + 1);
    j :| 0 <= j < |slots| && slots[j] == MAX_INDEX + 1;
    assert Landed(index, shortId, [t], 0, 0) == (false, Empty);
  }

  // ---------------------------------------------------------------- the code

  class PartialBlock<T(==,!new)> {
    var txn_available: seq<Slot<T>>
    var mempool_count: nat

    constructor ()
      ensures txn_available == [] && mempool_count == 0
    {
      txn_available, mempool_count := [], 0;
    }

    /** Put the prefilled transactions in their places. */
    method Prefill(m: Message<T>) returns (ok: bool)
      requires txn_available == [] && TxCount(m) > 0 && TxCount(m) <= MAX_BLOCK_BASE_SIZE / MIN_TRANSACTION_BASE_SIZE
      modifies this`txn_available
      ensures ok <==> WellFormed(m)
      ensures ok ==> PrefilledSoFar(m, |m.prefilledtxn|, txn_available)
    {
      hide PrefilledSoFar;
      txn_available := seq(TxCount(m), _ => Empty);
      PrefilledNone(m, txn_available);
      var lastprefilledindex := -1;
      for i := 0 to |m.prefilledtxn|
        invariant PrefilledSoFar(m, i, txn_available) && |txn_available| == TxCount(m)
        invariant lastprefilledindex == if i == 0 then -1 else Position(m.prefilledtxn, i - 1)
        invariant forall k :: 0 <= k < i ==> Fits(m, k)
      {
        if m.prefilledtxn[i].tx == Empty {
          assert !Fits(m, i);
          return false;
        }
        lastprefilledindex := lastprefilledindex + m.prefilledtxn[i].index + 1;
        assert lastprefilledindex == Position(m.prefilledtxn, i);
        if lastprefilledindex > MAX_INDEX || lastprefilledindex > |m.shorttxids| + i {
          assert !Fits(m, i);
          return false;
        }
        assert Fits(m, i);
        PrefilledNext(m, i, txn_available);
        txn_available := txn_available[lastprefilledindex := m.prefilledtxn[i].tx];
      }
      return true;
    }

    /** The position of every short id: the i-th id belongs to the i-th empty slot, of whose number 16 bits
        are kept.  Goes on for ever exactly when there is a short id and the first 65536 slots are occupied;
        otherwise fails exactly when two short ids are equal or some bucket of the hash table gets too full. */
    method MapShortIds(ids: seq<nat>, bucketSize: seq<nat> -> nat)
      returns (ends: bool, ok: bool, slots: seq<nat>, index: map<nat, nat>)
      requires |FreeSlots(txn_available, 0)| == |ids| && EmptyBeyond(txn_available)
      ensures ends <==> ids == [] || |txn_available| - |ids| <= MAX_INDEX
      ensures !ends ==> NeverEnds(txn_available)
      ensures ok <==> ends && Unrepeated(ids) && Even(ids, bucketSize)
      ensures ok ==> slots == FreeSlots(txn_available, 0) && Apart(ids, slots) && Indexed(ids, slots, index)
    {
      hide Apart, Indexed, IndexSoFar, FreeSlots, Unrepeated, EmptyBeyond, NeverEnds;
      slots, index := [], map[];
      var index_offset := 0;
      ghost var free := FreeSlots(txn_available, 0);
      assert [] + free == free;
      IndexNone(ids);
      for i := 0 to |ids|
        invariant |slots| == i && i + index_offset <= |txn_available| && 0 <= index_offset <= MAX_INDEX
        invariant i == 0 ==> index_offset == 0
        invariant i > 0 ==> |txn_available| - |ids| <= MAX_INDEX
        invariant slots + FreeSlots(txn_available, i + index_offset) == free
        invariant IndexSoFar(ids, slots, index) && forall n :: 0 < n <= i ==> bucketSize(ids[..n]) <= 12
      {
        ends, index_offset := NextFree(i, index_offset);
        if !ends {
          return false, false, [], map[];
        }
        if i == 0 {
          FewOccupied(txn_available, index_offset);
        }
        SlotTaken(txn_available, slots, free, i + index_offset);
        IndexNext(ids, slots, index, i + index_offset);
        index := index[ids[i] := Low16(i + index_offset)];
        slots := slots + [i + index_offset];
        if bucketSize(ids[..i + 1]) > 12 {
          return true, false, [], map[];
        }
      }
      assert slots == free;
      IndexSays(ids, slots, index);
      if |index| != |ids| {
        return true, false, [], map[];
      }
      IndexDone(txn_available, ids, slots, index);
      return true, true, slots, index;
    }

    /** Skip occupied slots.  An offset of 65535 is followed by 0, from where the search would go on as before
        without an end. */
    method NextFree(i: nat, index_offset_: nat) returns (ends: bool, index_offset: nat)
      requires i + index_offset_ <= |txn_available| && |FreeSlots(txn_available, i + index_offset_)| > 0
      requires EmptyBeyond(txn_available) && index_offset_ <= MAX_INDEX && (i == 0 ==> index_offset_ == 0)
      ensures index_offset <= MAX_INDEX
      ensures ends ==> index_offset_ <= index_offset && i + index_offset < |txn_available|
      ensures ends ==> txn_available[i + index_offset] == Empty
      ensures ends ==> FreeSlots(txn_available, i + index_offset) == FreeSlots(txn_available, i + index_offset_)
      ensures !ends ==> i == 0 && NeverEnds(txn_available)
      ensures !ends ==> |txn_available| - |FreeSlots(txn_available, 0)| > MAX_INDEX
    {
      index_offset := index_offset_;
      while txn_available[i + index_offset] != Empty
        invariant index_offset_ <= index_offset <= MAX_INDEX && i + index_offset < |txn_available|
        invariant FreeSlots(txn_available, i + index_offset) == FreeSlots(txn_available, i + index_offset_)
        invariant forall q :: i + index_offset_ <= q < i + index_offset ==> txn_available[q] != Empty
        decreases |txn_available| - index_offset
      {
        assert |FreeSlots(txn_available, i + index_offset + 1)| > 0;
        if index_offset == MAX_INDEX {
          NoneBelow(txn_available);
          return false, 0;
        }
        index_offset := index_offset + 1;
      }
      ends := true;
    }

    /** A mempool entry matches the short id at a position: the first match fills it, a second empties it. */
    method Match(pos: nat, tx: T, have_txn_: seq<bool>) returns (have_txn: seq<bool>)
      requires |have_txn_| == |txn_available| && pos < |have_txn_| && mempool_count == |Kept(have_txn_, txn_available)|
      modifies this
      ensures txn_available == Matched(old(txn_available), have_txn_, pos, tx)
      ensures have_txn == have_txn_[pos := true] && mempool_count == |Kept(have_txn, txn_available)|
      ensures mempool_count == old(mempool_count) + Gain(old(txn_available), have_txn_, pos)
    {
      hide Kept;
      have_txn := have_txn_;
      KeptStep(have_txn, txn_available, pos, tx);
      if !have_txn[pos] {
        txn_available := txn_available[pos := Has(tx)];
        have_txn := have_txn[pos := true];
        mempool_count := mempool_count + 1;
      } else {
        if txn_available[pos] != Empty {
          txn_available := txn_available[pos := Empty];
          mempool_count := mempool_count - 1;
        }
      }
    }

    /** Look for the missing transactions in the mempool; stops early when all are found. */
    method Scan(m: Message<T>, shortId: T -> nat, pool: seq<T>, index: map<nat, nat>, slots: seq<nat>)
      returns (ghost scanned: nat)
      requires mempool_count == 0 && slots == FreeSlots(txn_available, 0) && |slots| == |m.shorttxids|
               && Apart(m.shorttxids, slots)
      requires Indexed(m.shorttxids, slots, index)
      modifies this
      ensures |txn_available| == old(|txn_available|)
      ensures Landing(index, shortId, pool, scanned, old(txn_available), txn_available)
      ensures scanned < |pool| ==> mempool_count == |slots|
      ensures |txn_available| <= MAX_INDEX + 1 ==>
                && ScannedSoFar(m, old(txn_available), slots, shortId, pool, scanned, txn_available)
                && mempool_count + |FreeSlots(txn_available, 0)| == |slots|
                && (scanned < |pool| ==> FreeSlots(txn_available, 0) == [])
    {
      hide ScannedSoFar, Found, FreeSlots, Apart, Kept, Having, Matched, Gain, Indexed, Landing, HaveLanded;
      ghost var small := |txn_available| <= MAX_INDEX + 1;
      var have_txn := seq(|txn_available|, _ => false);
      SlotsInRange(txn_available, m, slots, shortId, pool, have_txn);
      ScanNone(m, txn_available, slots, shortId, pool);
      KeptNone(have_txn, txn_available);
      LandNone(index, shortId, pool, txn_available, have_txn);
      scanned := 0;
      for i := 0 to |pool|
        invariant scanned == i && |have_txn| == |txn_available| == |old(txn_available)|
        invariant mempool_count == |Kept(have_txn, txn_available)|
        invariant Landing(index, shortId, pool, i, old(txn_available), txn_available)
        invariant HaveLanded(index, shortId, pool, i, have_txn)
        invariant small ==> ScannedSoFar(m, old(txn_available), slots, shortId, pool, i, txn_available)
        invariant small ==> Having(m, slots, shortId, pool, i, have_txn)
        invariant small ==> mempool_count + |FreeSlots(txn_available, 0)| == |slots|
      {
        var shortid := shortId(pool[i]);
        if shortid in index {
          ghost var j := IndexAt(m.shorttxids, slots, index, shortid);
          var pos := index[shortid];
          LandStep(index, shortId, pool, i, old(txn_available), txn_available, have_txn);
          if small {
            ScanMatch(m, old(txn_available), slots, shortId, pool, i, txn_available, have_txn, j);
          }
          have_txn := Match(pos, pool[i], have_txn);
        } else {
          IndexMisses(m.shorttxids, slots, index, shortid);
          LandMiss(index, shortId, pool, i, old(txn_available), txn_available, have_txn);
          if small {
            ScanMiss(m, old(txn_available), slots, shortId, pool, i, txn_available);
            HavingMiss(m, slots, shortId, pool, i, have_txn);
          }
        }
        scanned := i + 1;
        if mempool_count == |index| {
          IndexSize(m.shorttxids, slots, index);
          break;
        }
      }
    }

    /** Accept a compact block: prefilled transactions at their positions, and mempool entries where the 16
        bits of their positions say, which with at most 65536 transactions is where they belong. */
    method InitData(m: Message<T>, shortId: T -> nat, pool: seq<T>, bucketSize: seq<nat> -> nat)
      returns (status: Status, ghost slots: seq<nat>, ghost scanned: nat, ghost base: seq<Slot<T>>,
               ghost index: map<nat, nat>)
      requires txn_available == [] && mempool_count == 0
      modifies this
      ensures status == Invalid <==> !WellFormed(m)
      ensures status == Endless <==> WellFormed(m) && |m.prefilledtxn| > MAX_INDEX && m.shorttxids != []
      ensures status == Failed <==>
                WellFormed(m) && status != Endless && !(Unrepeated(m.shorttxids) && Even(m.shorttxids, bucketSize))
      ensures status == Endless ==> PrefilledSoFar(m, |m.prefilledtxn|, base) && NeverEnds(base)
      ensures status == Ok ==>
                && PrefilledSoFar(m, |m.prefilledtxn|, base) && slots == FreeSlots(base, 0)
                && Indexed(m.shorttxids, slots, index) && Landing(index, shortId, pool, scanned, base, txn_available)
      ensures status == Ok && TxCount(m) <= MAX_INDEX + 1 ==> Placed(m, slots, shortId, pool, scanned, txn_available)
      ensures status == Ok && TxCount(m) <= MAX_INDEX + 1 && scanned < |pool| ==> FreeSlots(txn_available, 0) == []
    {
      hide PrefilledSoFar, ScannedSoFar, FreeSlots, Apart, Placed, Fits, Unrepeated, Even, Landing, NeverEnds, Indexed;
      slots, scanned, base, index := [], 0, [], map[];
      if (|m.shorttxids| == 0 && |m.prefilledtxn| == 0)
          || TxCount(m) > MAX_BLOCK_BASE_SIZE / MIN_TRANSACTION_BASE_SIZE {
        status := Invalid;
        return;
      }
      var ok := Prefill(m);
      if !ok {
        status := Invalid;
        return;
      }
      base := txn_available;
      PrefilledFree(m, base);
      BeyondAreEmpty(m, base);
      var ends, good, positions, shorttxids := MapShortIds(m.shorttxids, bucketSize);
      if !ends {
        status := Endless;
        return;
      }
      if !good {
        status := Failed;
        return;
      }
      slots, index := positions, shorttxids;
      scanned := Scan(m, shortId, pool, shorttxids, positions);
      if TxCount(m) <= MAX_INDEX + 1 {
        AllPlaced(m, base, slots, shortId, pool, scanned, txn_available);
      }
      status := Ok;
    }

    method IsTxAvailable(index: nat) returns (r: bool)
      requires index < |txn_available|
      ensures r <==> txn_available[index].Has?
    {
      return txn_available[index] != Empty;
    }

    /** The positions to ask for. */
    method Request() returns (indexes: seq<nat>)
      ensures indexes == FreeSlots(txn_available, 0)
    {
      indexes := [];
      for i := 0 to |txn_available|
        invariant indexes + FreeSlots(txn_available, i) == FreeSlots(txn_available, 0)
      {
        assert txn_available[i] == Empty ==> FreeSlots(txn_available, i) == [i] + FreeSlots(txn_available, i + 1);
        var available := IsTxAvailable(i);
        if !available {
          indexes := indexes + [i];
        }
      }
    }

    /** Complete the block with the transactions that were asked for, in order. */
    method FillBlock(vtx_missing: seq<T>, checkBlock: seq<T> -> Verdict) returns (status: Status, vtx: seq<T>)
      ensures |vtx_missing| != |FreeSlots(txn_available, 0)| ==> status == Invalid
      ensures |vtx_missing| == |FreeSlots(txn_available, 0)| ==>
                vtx == Filled(txn_available, vtx_missing, 0) && status == StatusOf(checkBlock(vtx))
    {
      hide Filled, FreeSlots;
      vtx := [];
      var tx_missing_offset := 0;
      FilledEnd(txn_available);
      assert vtx_missing[0..] == vtx_missing;
      for i := 0 to |txn_available|
        invariant 0 <= tx_missing_offset <= |vtx_missing|
        invariant tx_missing_offset + |FreeSlots(txn_available, i)| == |FreeSlots(txn_available, 0)|
        invariant vtx + Filled(txn_available, vtx_missing[tx_missing_offset..], i)
                  == Filled(txn_available, vtx_missing, 0)
      {
        FilledStep(txn_available, vtx_missing, tx_missing_offset, i);
        if txn_available[i] == Empty {
          if |vtx_missing| <= tx_missing_offset {
            return Invalid, [];
          }
          vtx := vtx + [vtx_missing[tx_missing_offset]];
          tx_missing_offset := tx_missing_offset + 1;
        } else {
          vtx := vtx + [txn_available[i].tx];
        }
      }
      if |vtx_missing| != tx_missing_offset {
        return Invalid, [];
      }
      assert vtx + [] == vtx;
      return StatusOf(checkBlock(vtx)), vtx;
    }
  }

  /** Everything is where it belongs: prefilled transactions at their positions, and the i-th short id at
      the i-th position that is not prefilled, with the one mempool entry that matches it, if any. */
  ghost predicate Placed<T(!new)>(m: Message<T>, slots: seq<nat>, shortId: T -> nat, pool: seq<T>, n: nat,
      avail: seq<Slot<T>>) {
    && |avail| == TxCount(m) && n <= |pool| && |slots| == |m.shorttxids| && Apart(m.shorttxids, slots)
    && (forall i {:trigger Position(m.prefilledtxn, i)} :: 0 <= i < |m.prefilledtxn| ==>
          Position(m.prefilledtxn, i) < |avail| && Position(m.prefilledtxn, i) !in slots
            && avail[Position(m.prefilledtxn, i)] == m.prefilledtxn[i].tx)
    && (forall j {:trigger slots[j]} ::
         0 <= j < |slots| ==> slots[j] < |avail| && avail[slots[j]] == Found(shortId, pool, n, m.shorttxids[j]).1)
    && (forall q ::
         0 <= q < |avail| && q !in slots ==>
         avail[q].Has? && exists i :: 0 <= i < |m.prefilledtxn| && Position(m.prefilledtxn, i) == q)
  }

  lemma PrefilledFree<T>(m: Message<T>, base: seq<Slot<T>>)
    requires PrefilledSoFar(m, |m.prefilledtxn|, base)
    ensures |base| == TxCount(m) && |FreeSlots(base, 0)| == |m.shorttxids|
  {
  }

  lemma BeyondIsEmpty<T>(m: Message<T>, base: seq<Slot<T>>, p: nat)
    requires WellFormed(m) && PrefilledSoFar(m, |m.prefilledtxn|, base) && MAX_INDEX < p < |base|
    ensures base[p] == Empty
  {
    hide FreeSlots, Position;
    var n := |m.prefilledtxn|;
    assert n > 0 ==> Fits(m, n - 1);
  }

  lemma BeyondAreEmpty<T>(m: Message<T>, base: seq<Slot<T>>)
    requires WellFormed(m) && PrefilledSoFar(m, |m.prefilledtxn|, base)
    ensures EmptyBeyond(base)
  {
    hide WellFormed, PrefilledSoFar;
    forall p | MAX_INDEX < p < |base|
      ensures base[p] == Empty
    {
      BeyondIsEmpty(m, base, p);
    }
  }

  /** Sixteen bits hold every position of a short id exactly when there are at most 65536 transactions. */
  lemma PositionsFit<T>(m: Message<T>, base: seq<Slot<T>>, slots: seq<nat>)
    requires WellFormed(m) && PrefilledSoFar(m, |m.prefilledtxn|, base) && slots == FreeSlots(base, 0)
    ensures (forall j :: 0 <= j < |slots| ==> Low16(slots[j]) == slots[j]) <==> TxCount(m) <= MAX_INDEX + 1
  {
    PrefilledFree(m, base);
    hide FreeSlots, PrefilledSoFar, WellFormed;
    FreeSlotsAre(base, 0);
    if TxCount(m) > MAX_INDEX + 1 {
      var p := MAX_INDEX + 1;
      BeyondIsEmpty(m, base, p);
      var j :| 0 <= j < |slots| && slots[j] == p;
      assert Low16(slots[j]) != slots[j];
    }
  }

  lemma AllPlaced<T(!new)>(m: Message<T>, base: seq<Slot<T>>, slots: seq<nat>, shortId: T -> nat, pool: seq<T>, n: nat,
      avail: seq<Slot<T>>)
    requires WellFormed(m) && PrefilledSoFar(m, |m.prefilledtxn|, base) && slots == FreeSlots(base, 0)
             && Apart(m.shorttxids, slots)
    requires ScannedSoFar(m, base, slots, shortId, pool, n, avail)
    ensures Placed(m, slots, shortId, pool, n, avail)
  {
    hide Found, Apart, Position;
    FreeSlotsAre(base, 0);
    forall i | 0 <= i < |m.prefilledtxn|
      ensures Position(m.prefilledtxn, i) < |avail| && Position(m.prefilledtxn, i) !in slots
      ensures avail[Position(m.prefilledtxn, i)] == m.prefilledtxn[i].tx
    {
      assert Fits(m, i);
    }
    forall q | 0 <= q < |avail| && q !in slots
      ensures avail[q].Has? && exists i :: 0 <= i < |m.prefilledtxn| && Position(m.prefilledtxn, i) == q
    {
      assert base[q].Has?;
    }
  }

  /** The block list when missing transactions go to the empty slots from p on, in order. */
  function Filled<T>(avail: seq<Slot<T>>, missing: seq<T>, p: nat): seq<T>
    requires p <= |avail|
    decreases |avail| - p
  {
    if p == |avail| then []
    else if avail[p].Has? then [avail[p].tx] + Filled(avail, missing, p + 1)
    else if missing == [] then []
    else [missing[0]] + Filled(avail, missing[1..], p + 1)
  }

  lemma FilledStep<T>(avail: seq<Slot<T>>, missing: seq<T>, n: nat, p: nat)
    requires n <= |missing| && p < |avail|
    ensures |FreeSlots(avail, p)| == |FreeSlots(avail, p + 1)| + if avail[p] == Empty then 1 else 0
    ensures avail[p].Has? ==> Filled(avail, missing[n..], p) == [avail[p].tx] + Filled(avail, missing[n..], p + 1)
    ensures avail[p] == Empty && n < |missing| ==>
              Filled(avail, missing[n..], p) == [missing[n]] + Filled(avail, missing[n + 1..], p + 1)
  {
    if n < |missing| {
      assert missing[n..][1..] == missing[n + 1..];
    }
  }

  lemma FilledEnd<T>(avail: seq<Slot<T>>)
    ensures FreeSlots(avail, |avail|) == [] && forall missing: seq<T> :: Filled(avail, missing, |avail|) == []
  {
  }

  /** The slots in use that were filled from the mempool. */
  function Kept<T>(have: seq<bool>, avail: seq<Slot<T>>): set<nat>
    requires |have| == |avail|
  {
    set p: nat | p < |have| && have[p] && avail[p].Has?
  }

  lemma KeptNone<T>(have: seq<bool>, avail: seq<Slot<T>>)
    requires |have| == |avail| && forall q :: 0 <= q < |have| ==> !have[q]
    ensures Kept(have, avail) == {}
  {
  }

  lemma KeptStep<T>(have: seq<bool>, avail: seq<Slot<T>>, pos: nat, t: T)
    requires |have| == |avail| && pos < |have|
    ensures !have[pos] ==> |Kept(have[pos := true], avail[pos := Has(t)])| == |Kept(have, avail)| + 1
    ensures have[pos] && avail[pos].Has? ==> |Kept(have, avail[pos := Empty])| == |Kept(have, avail)| - 1
  {
    if !have[pos] {
      assert Kept(have[pos := true], avail[pos := Has(t)]) == Kept(have, avail) + {pos};
    } else if avail[pos].Has? {
      assert Kept(have, avail) == Kept(have, avail[pos := Empty]) + {pos};
    }
  }

  /** Which slots have been matched at all. */
  ghost predicate Having<T(!new)>(m: Message<T>, slots: seq<nat>, shortId: T -> nat, pool: seq<T>, n: nat,
      have: seq<bool>) {
    && n <= |pool| && |slots| == |m.shorttxids|
    && forall j {:trigger slots[j]} ::
         0 <= j < |slots| ==> slots[j] < |have| && have[slots[j]] == Found(shortId, pool, n, m.shorttxids[j]).0
  }

  lemma SlotsInRange<T(!new)>(avail: seq<Slot<T>>, m: Message<T>, slots: seq<nat>, shortId: T -> nat, pool: seq<T>,
      have: seq<bool>)
    requires slots == FreeSlots(avail, 0) && |slots| == |m.shorttxids| && |have| == |avail|
             && forall q :: 0 <= q < |have| ==> !have[q]
    ensures forall j :: 0 <= j < |slots| ==> slots[j] < |avail| && avail[slots[j]] == Empty
    ensures Having(m, slots, shortId, pool, 0, have)
  {
  }

  lemma HavingMiss<T(!new)>(m: Message<T>, slots: seq<nat>, shortId: T -> nat, pool: seq<T>, n: nat, have: seq<bool>)
    requires Having(m, slots, shortId, pool, n, have) && n < |pool| && shortId(pool[n]) !in m.shorttxids
    ensures Having(m, slots, shortId, pool, n + 1, have)
  {
    hide Found;
    forall k | 0 <= k < |slots|
      ensures slots[k] < |have| && have[slots[k]] == Found(shortId, pool, n + 1, m.shorttxids[k]).0
    {
      FoundOther(shortId, pool, n, m.shorttxids[k]);
    }
  }

  /** A mempool entry that matches slot j: the first match fills it, a second one empties it for good. */
  lemma ScanStep<T(!new)>(m: Message<T>, base: seq<Slot<T>>, slots: seq<nat>, shortId: T -> nat, pool: seq<T>, n: nat,
      avail: seq<Slot<T>>, have: seq<bool>, j: nat)
    requires ScannedSoFar(m, base, slots, shortId, pool, n, avail) && Having(m, slots, shortId, pool, n, have)
    requires n < |pool| && j < |slots| && Apart(m.shorttxids, slots) && shortId(pool[n]) == m.shorttxids[j]
             && |have| == |avail|
    ensures slots[j] < |avail|
    ensures var pos := slots[j];
            && ScannedSoFar(m, base, slots, shortId, pool, n + 1,
               avail[pos := if have[pos] then Empty else Has(pool[n])])
            && Having(m, slots, shortId, pool, n + 1, have[pos := true])
            && (!have[pos] ==> avail[pos] == Empty)
            && (have[pos] && avail[pos] == Empty ==> avail[pos := Empty] == avail)
            && (have[pos] ==> have[pos := true] == have)
  {
    var pos := slots[j];
    assert pos < |avail| && avail[pos] == Found(shortId, pool, n, m.shorttxids[j]).1
           && have[pos] == Found(shortId, pool, n, m.shorttxids[j]).0;
    ScanHit(m, base, slots, shortId, pool, n, avail, j);
    hide ScannedSoFar;
    forall k | 0 <= k < |slots|
      ensures slots[k] < |have| && have[pos := true][slots[k]] == Found(shortId, pool, n + 1, m.shorttxids[k]).0
    {
      if k != j {
        ApartAt(m.shorttxids, slots, j, k);
        FoundOther(shortId, pool, n, m.shorttxids[k]);
      }
    }
  }

  function Matched<T>(avail: seq<Slot<T>>, have: seq<bool>, pos: nat, t: T): (r: seq<Slot<T>>)
    requires |have| == |avail| && pos < |have|
    ensures |r| == |avail|
  {
    avail[pos := if have[pos] then Empty else Has(t)]
  }

  /** By how many the transactions found become more. */
  function Gain<T>(avail: seq<Slot<T>>, have: seq<bool>, pos: nat): int
    requires |have| == |avail| && pos < |have|
  {
    if !have[pos] then 1 else if avail[pos].Has? then -1 else 0
  }

  /** A match, with the number of free slots. */
  lemma ScanMatch<T(!new)>(
    m: Message<T>, base: seq<Slot<T>>, slots: seq<nat>, shortId: T -> nat, pool: seq<T>, n: nat,
    avail: seq<Slot<T>>, have: seq<bool>, j: nat)
    requires ScannedSoFar(m, base, slots, shortId, pool, n, avail) && Having(m, slots, shortId, pool, n, have)
    requires n < |pool| && j < |slots| && Apart(m.shorttxids, slots) && shortId(pool[n]) == m.shorttxids[j]
             && |have| == |avail|
    ensures slots[j] < |avail|
    ensures var pos := slots[j];
            var avail' := Matched(avail, have, pos, pool[n]);
            && ScannedSoFar(m, base, slots, shortId, pool, n + 1, avail')
            && Having(m, slots, shortId, pool, n + 1, have[pos := true])
            && |FreeSlots(avail', 0)| + Gain(avail, have, pos) == |FreeSlots(avail, 0)|
  {
    hide ScannedSoFar, Having, FreeSlots, Apart;
    ScanStep(m, base, slots, shortId, pool, n, avail, have, j);
    var pos := slots[j];
    if !have[pos] {
      TakeSlot(avail, 0, pos, pool[n]);
    } else if avail[pos].Has? {
      GiveBack(avail, pos);
    }
  }

  lemma GiveBack<T>(avail: seq<Slot<T>>, q: nat)
    requires q < |avail| && avail[q].Has?
    ensures |FreeSlots(avail[q := Empty], 0)| == |FreeSlots(avail, 0)| + 1
  {
    TakeSlot(avail[q := Empty], 0, q, avail[q].tx);
    assert avail[q := Empty][q := Has(avail[q].tx)] == avail;
  }

  lemma IndexSize(ids: seq<nat>, slots: seq<nat>, index: map<nat, nat>)
    requires Apart(ids, slots) && Indexed(ids, slots, index)
    ensures |index| == |ids|
  {
    DistinctSize(ids, index.Keys);
  }

  lemma {:induction false} DistinctSize(ids: seq<nat>, s: set<nat>)
    requires forall j, k :: 0 <= j < k < |ids| ==> ids[j] != ids[k]
    requires forall id :: id in s <==> id in ids
    ensures |s| == |ids|
  {
    if ids == [] {
      assert s == {};
    } else {
      var init, last := ids[..|ids| - 1], ids[|ids| - 1];
      assert ids == init + [last];
      assert last !in init;
      DistinctSize(init, s - {last});
    }
  }

  lemma SlotTaken<T>(avail: seq<Slot<T>>, slots: seq<nat>, free: seq<nat>, p: nat)
    requires p < |avail| && avail[p] == Empty && slots + FreeSlots(avail, p) == free
    ensures slots + [p] + FreeSlots(avail, p + 1) == free
  {
    assert FreeSlots(avail, p) == [p] + FreeSlots(avail, p + 1);
  }

  /** Every short id is found, with 16 bits of its position. */
  ghost predicate Indexed(ids: seq<nat>, slots: seq<nat>, index: map<nat, nat>) {
    && |ids| == |slots| && (forall id {:trigger id in index} :: id in index <==> id in ids)
    && forall j :: 0 <= j < |ids| ==> ids[j] in index && index[ids[j]] == Low16(slots[j])
  }

  lemma IndexAt(ids: seq<nat>, slots: seq<nat>, index: map<nat, nat>, id: nat) returns (j: nat)
    requires Indexed(ids, slots, index) && id in index
    ensures j < |ids| == |slots| && ids[j] == id && index[id] <= slots[j]
            && (slots[j] <= MAX_INDEX ==> index[id] == slots[j])
  {
    j :| 0 <= j < |ids| && ids[j] == id;
  }

  lemma IndexMisses(ids: seq<nat>, slots: seq<nat>, index: map<nat, nat>, id: nat)
    requires Indexed(ids, slots, index) && id !in index
    ensures id !in ids
  {
  }

  /** The map built from the first short ids; it has an entry less for every collision. */
  ghost predicate IndexSoFar(ids: seq<nat>, slots: seq<nat>, index: map<nat, nat>) {
    && |slots| <= |ids| && |index| <= |slots|
    && (forall id {:trigger id in index} :: id in index <==> id in ids[..|slots|])
    && (|index| == |slots| ==>
          && (forall j, k :: 0 <= j < k < |slots| ==> ids[j] != ids[k])
          && forall j :: 0 <= j < |slots| ==> ids[j] in index && index[ids[j]] == Low16(slots[j]))
  }

  lemma IndexNone(ids: seq<nat>)
    ensures IndexSoFar(ids, [], map[])
  {
  }

  lemma IndexNext(ids: seq<nat>, slots: seq<nat>, index: map<nat, nat>, p: nat)
    requires IndexSoFar(ids, slots, index) && |slots| < |ids|
    ensures IndexSoFar(ids, slots + [p], index[ids[|slots|] := Low16(p)])
  {
    hide Low16;
    var i := |slots|;
    MapGrows(index, ids[i], Low16(p));
    assert ids[..i + 1] == ids[..i] + [ids[i]];
    if ids[i] !in index {
      forall j | 0 <= j < i
        ensures ids[j] != ids[i]
      {
        assert ids[..i][j] == ids[j];
      }
    }
  }

  lemma IndexSays(ids: seq<nat>, slots: seq<nat>, index: map<nat, nat>)
    requires IndexSoFar(ids, slots, index) && |slots| == |ids|
    ensures |index| == |ids| <==> Unrepeated(ids)
  {
    assert ids[..|ids|] == ids;
    if Unrepeated(ids) {
      DistinctSize(ids, index.Keys);
    }
  }

  lemma IndexDone<T>(avail: seq<Slot<T>>, ids: seq<nat>, slots: seq<nat>, index: map<nat, nat>)
    requires IndexSoFar(ids, slots, index) && |slots| == |ids| == |index| && slots == FreeSlots(avail, 0)
    ensures Apart(ids, slots) && Indexed(ids, slots, index)
  {
    FreeSlotsAre(avail, 0);
    assert ids[..|ids|] == ids;
  }

  lemma MapGrows(m: map<nat, nat>, k: nat, v: nat)
    ensures |m[k := v]| == |m| + if k in m then 0 else 1
  {
    assert m[k := v].Keys == m.Keys + {k};
  }

  // ---------------------------------------------------------------- putting the block together

  /** The message describes this block. */
  ghost predicate Tells<T>(m: Message<T>, slots: seq<nat>, shortId: T -> nat, vtx: seq<T>) {
    && |vtx| == TxCount(m) && |slots| == |m.shorttxids|
    && (forall i {:trigger Position(m.prefilledtxn, i)} :: 0 <= i < |m.prefilledtxn| ==>
          Position(m.prefilledtxn, i) < |vtx| && m.prefilledtxn[i].tx == Has(vtx[Position(m.prefilledtxn, i)]))
    && (forall j :: 0 <= j < |slots| ==> slots[j] < |vtx| && m.shorttxids[j] == shortId(vtx[slots[j]]))
  }

  /** No mempool entry has the short id of another transaction of the block. */
  ghost predicate NoForeignCollision<T(!new)>(shortId: T -> nat, pool: seq<T>, vtx: seq<T>) {
    forall t, q {:trigger shortId(t), vtx[q]} ::
          t in pool && 0 <= q < |vtx| && shortId(t) == shortId(vtx[q]) ==> t == vtx[q]
  }

  /** Whatever is available is right. */
  lemma AvailableIsRight<T(!new)>(m: Message<T>, slots: seq<nat>, shortId: T -> nat, pool: seq<T>, n: nat,
      avail: seq<Slot<T>>, vtx: seq<T>, q: nat)
    requires Placed(m, slots, shortId, pool, n, avail) && Tells(m, slots, shortId, vtx)
             && NoForeignCollision(shortId, pool, vtx)
    requires q < |avail| && avail[q].Has?
    ensures avail[q].tx == vtx[q]
  {
    if q in slots {
      var j :| 0 <= j < |slots| && slots[j] == q;
      var found := Found(shortId, pool, n, m.shorttxids[j]);
      assert found.1 == avail[q];
      assert shortId(avail[q].tx) == shortId(vtx[q]);
    } else {
      var i :| 0 <= i < |m.prefilledtxn| && Position(m.prefilledtxn, i) == q;
    }
  }

  /** The block's transactions at the given positions. */
  function At<T>(vtx: seq<T>, positions: seq<nat>): (r: seq<T>)
    requires forall k :: 0 <= k < |positions| ==> positions[k] < |vtx|
    ensures |r| == |positions| && forall k :: 0 <= k < |r| ==> r[k] == vtx[positions[k]]
  {
    seq(|positions|, k requires 0 <= k < |positions| => vtx[positions[k]])
  }

  lemma {:induction false} FilledIsBlock<T>(avail: seq<Slot<T>>, vtx: seq<T>, p: nat)
    requires p <= |avail| == |vtx| && forall q :: 0 <= q < |avail| && avail[q].Has? ==> avail[q].tx == vtx[q]
    ensures Filled(avail, At(vtx, FreeSlots(avail, p)), p) == vtx[p..]
    decreases |avail| - p
  {
    hide At;
    if p < |avail| {
      FilledIsBlock(avail, vtx, p + 1);
      var missing := At(vtx, FreeSlots(avail, p));
      if avail[p] == Empty {
        assert FreeSlots(avail, p) == [p] + FreeSlots(avail, p + 1);
        assert missing[0] == vtx[p] && missing[1..] == At(vtx, FreeSlots(avail, p + 1));
        assert Filled(avail, missing, p) == [missing[0]] + Filled(avail, missing[1..], p + 1);
      } else {
        assert Filled(avail, missing, p) == [avail[p].tx] + Filled(avail, missing, p + 1);
      }
      assert vtx[p..] == [vtx[p]] + vtx[p + 1..];
    }
  }

  /** With the missing transactions, and absent collisions with foreign mempool entries, the original
      list comes out, whichever transactions were prefilled. */
  lemma Reconstructs<T(!new)>(m: Message<T>, slots: seq<nat>, shortId: T -> nat, pool: seq<T>, n: nat,
      avail: seq<Slot<T>>, vtx: seq<T>)
    requires Placed(m, slots, shortId, pool, n, avail) && Tells(m, slots, shortId, vtx)
             && NoForeignCollision(shortId, pool, vtx)
    ensures |avail| == |vtx| && Filled(avail, At(vtx, FreeSlots(avail, 0)), 0) == vtx
  {
    forall q | 0 <= q < |avail| && avail[q].Has?
      ensures avail[q].tx == vtx[q]
    {
      AvailableIsRight(m, slots, shortId, pool, n, avail, vtx, q);
    }
    FilledIsBlock(avail, vtx, 0);
    assert vtx[0..] == vtx;
  }

  function ShortIds<T>(vtx: seq<T>, shortId: T -> nat): seq<nat> {
    seq(|vtx|, i requires 0 <= i < |vtx| => shortId(vtx[i]))
  }

  /** The message the sender makes: the first transaction prefilled, short ids for the others. */
  method MakeMessage<T>(vtx: seq<T>, shortId: T -> nat) returns (m: Message<T>)
    requires vtx != []
    ensures m.prefilledtxn == [Prefilled(0, Has(vtx[0]))] && |m.shorttxids| == |vtx| - 1
    ensures forall j :: 0 <= j < |m.shorttxids| ==> m.shorttxids[j] == shortId(vtx[j + 1])
  {
    var shorttxids := [];
    for i := 1 to |vtx|
      invariant |shorttxids| == i - 1 && forall j :: 0 <= j < i - 1 ==> shorttxids[j] == shortId(vtx[j + 1])
    {
      shorttxids := shorttxids + [shortId(vtx[i])];
    }
    m := Message(shorttxids, [Prefilled(0, Has(vtx[0]))]);
  }

  /** Ascending positions that leave out only the first one are all the others. */
  lemma {:induction false} SlotsFollow(slots: seq<nat>, n: nat, j: nat)
    requires |slots| == n && j < n && (forall i, k :: 0 <= i < k < n ==> slots[i] < slots[k])
    requires forall k :: 0 <= k < n ==> 1 <= slots[k] <= n
    ensures slots[j] == j + 1
  {
    SlotsAtLeast(slots, j);
    SlotsAtMost(slots, n, j);
  }

  lemma {:induction false} SlotsAtLeast(slots: seq<nat>, j: nat)
    requires j < |slots| && (forall i, k :: 0 <= i < k < |slots| ==> slots[i] < slots[k]) && slots[0] >= 1
    ensures slots[j] >= j + 1
  {
    if j > 0 {
      SlotsAtLeast(slots, j - 1);
    }
  }

  lemma {:induction false} SlotsAtMost(slots: seq<nat>, n: nat, j: nat)
    requires j < |slots| == n && (forall i, k :: 0 <= i < k < n ==> slots[i] < slots[k]) && slots[n - 1] <= n
    ensures slots[j] <= j + 1
    decreases n - j
  {
    if j < n - 1 {
      SlotsAtMost(slots, n, j + 1);
    }
  }

  lemma HonestTells<T(!new)>(m: Message<T>, slots: seq<nat>, shortId: T -> nat, pool: seq<T>, n: nat,
      avail: seq<Slot<T>>, vtx: seq<T>)
    requires vtx != [] && m.prefilledtxn == [Prefilled(0, Has(vtx[0]))] && |m.shorttxids| == |vtx| - 1
    requires forall j :: 0 <= j < |m.shorttxids| ==> m.shorttxids[j] == shortId(vtx[j + 1])
    requires Placed(m, slots, shortId, pool, n, avail)
    ensures Tells(m, slots, shortId, vtx)
  {
    assert Position(m.prefilledtxn, 0) == 0;
    assert 0 !in slots;
    forall j | 0 <= j < |slots|
      ensures slots[j] == j + 1
    {
      forall k | 0 <= k < |slots|
        ensures 1 <= slots[k] <= |slots|
      {
        assert slots[k] in slots;
      }
      SlotsFollow(slots, |slots|, j);
    }
  }

  lemma HonestWellFormed<T>(m: Message<T>, vtx: seq<T>)
    requires 0 < |vtx| <= MAX_INDEX + 1 && m.prefilledtxn == [Prefilled(0, Has(vtx[0]))] && |m.shorttxids| == |vtx| - 1
    ensures WellFormed(m)
  {
    assert Position(m.prefilledtxn, 0) == 0;
  }

  // ---------------------------------------------------------------- the request

  predicate Ascending(s: seq<nat>) { forall i, j :: 0 <= i < j < |s| ==> s[i] < s[j] }

  predicate Bounded(s: seq<nat>) { forall i :: 0 <= i < |s| ==> s[i] <= MAX_INDEX }

  /** The 16-bit number after x. */
  function Wrap(x: nat): nat { (x + 1) % (MAX_INDEX + 1) }

  lemma WrapIs(x: nat)
    requires x <= MAX_INDEX
    ensures Wrap(x) == if x == MAX_INDEX then 0 else x + 1
  {
  }

  /** What is added to number i on the wire. */
  function Offset(s: seq<nat>, i: nat): nat
    requires i <= |s|
  {
    if i == 0 then 0 else Wrap(s[i - 1])
  }

  /** `s` undoes the differences on the wire, */
  ghost predicate Undoes(wire: seq<nat>, s: seq<nat>) {
    |s| == |wire| && forall i :: 0 <= i < |s| ==> s[i] == wire[i] + Offset(s, i)
  }

  /** and it is what they mean to the reader. */
  ghost predicate ReadsAs(wire: seq<nat>, s: seq<nat>) { Undoes(wire, s) && Bounded(s) }

  /** What comes before determines what comes next. */
  lemma {:induction false} PrefixUnique(wire: seq<nat>, s: seq<nat>, t: seq<nat>, n: nat)
    requires n <= |t| && Undoes(wire, s) && |t| == |wire|
    requires forall i :: 0 <= i < n ==> t[i] == wire[i] + Offset(t, i)
    ensures s[..n] == t[..n] && Offset(s, n) == Offset(t, n)
  {
    hide Wrap;
    if n > 0 {
      PrefixUnique(wire, s, t, n - 1);
      assert s[n - 1] == t[n - 1];
      assert s[..n] == s[..n - 1] + [s[n - 1]] && t[..n] == t[..n - 1] + [t[n - 1]];
    }
  }

  /** Numbers that mean nothing within 16 bits are refused, all others are read as they are meant. */
  method ReadIndexes(wire: seq<nat>) returns (ok: bool, indexes: seq<nat>)
    ensures ok ==> ReadsAs(wire, indexes)
    ensures forall s :: ReadsAs(wire, s) ==> ok && indexes == s
  {
    hide Wrap;
    for i := 0 to |wire| {
      if wire[i] > MAX_INDEX {
        assert forall s :: Undoes(wire, s) ==> s[i] > MAX_INDEX;
        return false, [];
      }
    }
    indexes := wire;
    var offset := 0;
    for i := 0 to |wire|
      invariant |indexes| == |wire| && offset == Offset(indexes, i)
      invariant forall k :: i <= k < |wire| ==> indexes[k] == wire[k]
      invariant forall k :: 0 <= k < i ==> indexes[k] <= MAX_INDEX && indexes[k] == wire[k] + Offset(indexes, k)
    {
      if indexes[i] + offset > MAX_INDEX {
        forall s | Undoes(wire, s)
          ensures s[i] > MAX_INDEX
        {
          PrefixUnique(wire, s, indexes, i);
        }
        return false, [];
      }
      indexes := indexes[i := indexes[i] + offset];
      offset := Wrap(indexes[i]);
    }
    forall s | Undoes(wire, s)
      ensures indexes == s
    {
      PrefixUnique(wire, s, indexes, |wire|);
      assert s[..|wire|] == s && indexes[..|wire|] == indexes;
    }
    return true, indexes;
  }

  lemma OffsetIs(s: seq<nat>, i: nat)
    requires Ascending(s) && Bounded(s) && i < |s|
    ensures Offset(s, i) == (if i == 0 then 0 else s[i - 1] + 1) && Offset(s, i) <= s[i]
  {
    hide Wrap;
    if i > 0 {
      WrapIs(s[i - 1]);
      assert s[i - 1] < s[i];
    }
  }

  /** Ascending 16-bit indexes are written so that they are read back. */
  method WriteIndexes(indexes: seq<nat>) returns (wire: seq<nat>)
    requires Ascending(indexes) && Bounded(indexes)
    ensures ReadsAs(wire, indexes)
  {
    hide Ascending, Bounded, Offset;
    wire := [];
    for i := 0 to |indexes|
      invariant |wire| == i && forall k :: 0 <= k < i ==> indexes[k] == wire[k] + Offset(indexes, k)
    {
      OffsetIs(indexes, i);
      wire := wire + [indexes[i] - if i == 0 then 0 else indexes[i - 1] + 1];
    }
  }

  /** The position that number i on the wire stands for, if nothing wraps before. */
  function Reach(wire: seq<nat>, i: nat): nat
    requires i < |wire|
  {
    if i == 0 then wire[0] else Reach(wire, i - 1) + 1 + wire[i]
  }

  /** A request that asks for position 65535 and for something behind it. */
  predicate Overshoots(wire: seq<nat>) { exists i :: 0 <= i < |wire| - 1 && Reach(wire, i) == MAX_INDEX }

  lemma {:induction false} ReachGrows(wire: seq<nat>, i: nat, j: nat)
    requires i < j < |wire|
    ensures Reach(wire, i) < Reach(wire, j)
    decreases j
  {
    if i < j - 1 {
      ReachGrows(wire, i, j - 1);
    }
  }

  /** Up to the first position 65535 the reader is where the numbers on the wire lead. */
  lemma {:induction false} ReachIsRead(wire: seq<nat>, s: seq<nat>, i: nat)
    requires ReadsAs(wire, s) && i < |s| && forall k :: 0 <= k < i ==> Reach(wire, k) != MAX_INDEX
    ensures s[i] == Reach(wire, i)
  {
    hide Wrap;
    assert s[i] == wire[i] + Offset(s, i);
    if i > 0 {
      ReachIsRead(wire, s, i - 1);
      WrapIs(s[i - 1]);
    }
  }

  /** What is read ascends if and only if the request does not overshoot. */
  lemma ReadAscends(wire: seq<nat>, s: seq<nat>)
    requires ReadsAs(wire, s)
    ensures Ascending(s) <==> !Overshoots(wire)
  {
    hide Wrap, Reach;
    if Overshoots(wire) {
      var i :| 0 <= i < |wire| - 1 && Reach(wire, i) == MAX_INDEX;
      forall k | 0 <= k < i
        ensures Reach(wire, k) != MAX_INDEX
      {
        ReachGrows(wire, k, i);
      }
      ReachIsRead(wire, s, i);
      assert s[i + 1] <= s[i];
    } else {
      forall i, j | 0 <= i < j < |s|
        ensures s[i] < s[j]
      {
        ReachIsRead(wire, s, i);
        ReachIsRead(wire, s, j);
        ReachGrows(wire, i, j);
      }
    }
  }

  /** The offset wraps after the last 16-bit index: here a request that asks for 65535 and then 0. */
  lemma ReadDescending()
    ensures ReadsAs([MAX_INDEX, 0], [MAX_INDEX, 0]) && !Ascending([MAX_INDEX, 0])
  {
    var s: seq<nat> := [MAX_INDEX, 0];
    WrapIs(s[0]);
    assert s[0] == MAX_INDEX && s[1] == 0 && Offset(s, 1) == 0;
  }

  /** The answer to a request; no answer when an index is not in the block. */
  method Answer<T>(vtx: seq<T>, indexes: seq<nat>) returns (ok: bool, txn: seq<T>)
    ensures ok <==> forall k :: 0 <= k < |indexes| ==> indexes[k] < |vtx|
    ensures ok ==> txn == At(vtx, indexes)
  {
    txn := [];
    for i := 0 to |indexes|
      invariant |txn| == i && forall k :: 0 <= k < i ==> indexes[k] < |vtx| && txn[k] == vtx[indexes[k]]
    {
      if indexes[i] >= |vtx| {
        return false, [];
      }
      txn := txn + [vtx[indexes[i]]];
    }
    return true, txn;
  }

  /** A block sent as a compact block, with the missing transactions asked for and answered, arrives
      unchanged, if its short ids differ and spread evenly. */
  method SendAndReceive<T(==,!new)>(
    vtx: seq<T>, shortId: T -> nat, pool: seq<T>, bucketSize: seq<nat> -> nat, checkBlock: seq<T> -> Verdict)
    returns (status: Status, received: seq<T>)
    requires 0 < |vtx| <= MAX_INDEX + 1 && NoForeignCollision(shortId, pool, vtx)
    ensures var ids := ShortIds(vtx[1..], shortId);
            status == if Unrepeated(ids) && Even(ids, bucketSize) then StatusOf(checkBlock(vtx)) else Failed
    ensures status == Ok ==> received == vtx
  {
    hide Placed, Tells, NoForeignCollision, WellFormed, ReadsAs, Filled, FreeSlots, Unrepeated, Even;
    received := [];
    var m := MakeMessage(vtx, shortId);
    HonestWellFormed(m, vtx);
    assert m.shorttxids == ShortIds(vtx[1..], shortId);
    var partial := new PartialBlock<T>();
    ghost var slots, scanned, base, index;
    status, slots, scanned, base, index := partial.InitData(m, shortId, pool, bucketSize);
    if status != Ok {
      return;
    }
    HonestTells(m, slots, shortId, pool, scanned, partial.txn_available, vtx);
    Reconstructs(m, slots, shortId, pool, scanned, partial.txn_available, vtx);
    FreeSlotsAre(partial.txn_available, 0);
    var asked := partial.Request();
    var wire := WriteIndexes(asked);
    var readable, indexes := ReadIndexes(wire);
    assert readable && indexes == asked;
    var known, missing := Answer(vtx, indexes);
    status, received := partial.FillBlock(missing, checkBlock);
  }
}
