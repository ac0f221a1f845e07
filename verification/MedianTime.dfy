/** Median time past, and the relative lock times of BIP 68 that are measured with it. */
module MedianTime {

  const SPAN: nat := 11

  /** How many elements are below x. */
  function Below(s: seq<int>, x: int): (n: nat)
    ensures n <= |s|
  {
    if s == [] then 0 else Below(s[..|s| - 1], x) + if s[|s| - 1] < x then 1 else 0
  }

  predicate IsSorted(s: seq<int>) { forall i, j :: 0 <= i < j < |s| ==> s[i] <= s[j] }

  // ---------------------------------------------------------------- sorting

  function Insert(s: seq<int>, x: int): seq<int> {
    if s == [] || s[|s| - 1] <= x then s + [x] else Insert(s[..|s| - 1], x) + [s[|s| - 1]]
  }

  function Sort(s: seq<int>): (r: seq<int>)
    ensures |r| == |s|
  {
    if s == [] then [] else
      InsertKeeps(Sort(s[..|s| - 1]), s[|s| - 1], 0);
      Insert(Sort(s[..|s| - 1]), s[|s| - 1])
  }

  lemma {:induction false} InsertKeeps(s: seq<int>, x: int, y: int)
    ensures |Insert(s, x)| == |s| + 1
    ensures Below(Insert(s, x), y) == Below(s, y) + if x < y then 1 else 0
  {
    if s == [] || s[|s| - 1] <= x {
      assert (s + [x])[..|s|] == s;
    } else {
      InsertKeeps(s[..|s| - 1], x, y);
      var r := Insert(s[..|s| - 1], x);
      assert (r + [s[|s| - 1]])[..|r|] == r;
    }
  }

  lemma {:induction false} InsertSorts(s: seq<int>, x: int)
    requires IsSorted(s)
    ensures IsSorted(Insert(s, x))
    ensures forall i :: 0 <= i < |Insert(s, x)| ==> Insert(s, x)[i] == x || Insert(s, x)[i] in s
  {
    if s != [] && s[|s| - 1] > x {
      InsertSorts(s[..|s| - 1], x);
      var r := Insert(s[..|s| - 1], x);
      forall i | 0 <= i < |r|
        ensures r[i] <= s[|s| - 1]
      {
        assert r[i] == x || r[i] in s[..|s| - 1];
      }
    }
  }

  lemma {:induction false} SortSorts(s: seq<int>)
    ensures IsSorted(Sort(s))
  {
    if s != [] {
      SortSorts(s[..|s| - 1]);
      InsertSorts(Sort(s[..|s| - 1]), s[|s| - 1]);
    }
  }

  lemma {:induction false} SortKeeps(s: seq<int>, x: int)
    ensures Below(Sort(s), x) == Below(s, x)
  {
    if s != [] {
      SortKeeps(s[..|s| - 1], x);
      InsertKeeps(Sort(s[..|s| - 1]), s[|s| - 1], x);
    }
  }

  // ---------------------------------------------------------------- medians

  function Median(s: seq<int>): int
    requires s != []
  {
    Sort(s)[|s| / 2]
  }

  /** In a sorted sequence, the element at k is at least x exactly when at most k are below x. */
  lemma {:induction false} BelowSorted(s: seq<int>, x: int, k: nat)
    requires IsSorted(s) && k < |s|
    ensures s[k] >= x <==> Below(s, x) <= k
  {
    var n := |s| - 1;
    if k == n {
      if s[n] >= x {
      } else {
        AllBelow(s, x);
      }
    } else {
      BelowSorted(s[..n], x, k);
    }
  }

  lemma {:induction false} AllBelow(s: seq<int>, x: int)
    requires forall i :: 0 <= i < |s| ==> s[i] < x
    ensures Below(s, x) == |s|
  {
    if s != [] {
      AllBelow(s[..|s| - 1], x);
    }
  }

  /** A median is at least x exactly when at most half of the elements are below x. */
  lemma MedianAtLeast(s: seq<int>, x: int)
    requires s != []
    ensures Median(s) >= x <==> Below(s, x) <= |s| / 2
  {
    SortSorts(s);
    SortKeeps(s, x);
    BelowSorted(Sort(s), x, |s| / 2);
  }

  lemma {:induction false} BelowJoin(s: seq<int>, r: seq<int>, x: int)
    ensures Below(s + r, x) == Below(s, x) + Below(r, x)
  {
    if r == [] {
      assert s + r == s;
    } else {
      assert (s + r)[..|s + r| - 1] == s + r[..|r| - 1];
      BelowJoin(s, r[..|r| - 1], x);
    }
  }

  // ---------------------------------------------------------------- along a chain

  /** The times of the last eleven blocks up to height h, or of all if there are fewer. */
  function Window(times: seq<int>, h: nat): (w: seq<int>)
    requires h < |times|
    ensures w != [] && |w| <= SPAN
  {
    times[(if h + 1 < SPAN then 0 else h + 1 - SPAN)..h + 1]
  }

  function MedianTimePast(times: seq<int>, h: nat): int
    requires h < |times|
  {
    Median(Window(times, h))
  }

  /** The median time past lies in the middle of the last eleven times: five at most are before it, and with it
      there are more than five. */
  lemma MiddleOfEleven(times: seq<int>, h: nat)
    requires 10 <= h < |times|
    ensures var m, last := MedianTimePast(times, h), times[h - 10..h + 1];
            Below(last, m) <= 5 && Below(last, m + 1) > 5
  {
    hide Median;
    var w := times[h - 10..h + 1];
    assert Window(times, h) == w;
    MedianAtLeast(w, Median(w));
    MedianAtLeast(w, Median(w) + 1);
  }

  /** Every header passed the timestamp check against its parent. */
  ghost predicate TimesOk(times: seq<int>) {
    forall h :: 0 < h < |times| ==> times[h] > MedianTimePast(times, h - 1)
  }

  /** A time above the median enters; when the window is full its oldest time leaves. */
  lemma MedianSlides(w: seq<int>, w': seq<int>, t: int)
    requires w != [] && w' != [] && t > Median(w)
    requires w' == w + [t] || (w + [t] == [w[0]] + w' && |w'| == |w|)
    ensures Median(w') >= Median(w)
  {
    hide Median;
    var m := Median(w);
    MedianAtLeast(w, m);
    BelowJoin(w, [t], m);
    OneBelow(t, m);
    if w' != w + [t] {
      BelowJoin([w[0]], w', m);
    }
    MedianAtLeast(w', m);
  }

  lemma OneBelow(t: int, m: int)
    ensures Below([t], m) == if t < m then 1 else 0
  {
    assert [t][..0] == [];
  }

  lemma WindowSlides(times: seq<int>, h: nat)
    requires h + 1 < |times|
    ensures var w, w', t := Window(times, h), Window(times, h + 1), times[h + 1];
            w' == w + [t] || (w + [t] == [w[0]] + w' && |w'| == |w|)
  {
    var w, w', t := Window(times, h), Window(times, h + 1), times[h + 1];
    if h + 1 < SPAN {
      assert w' == w + [t];
    } else {
      assert w + [t] == [w[0]] + w';
    }
  }

  lemma MedianNext(times: seq<int>, h: nat)
    requires TimesOk(times) && h + 1 < |times|
    ensures MedianTimePast(times, h + 1) >= MedianTimePast(times, h)
  {
    hide Median, Window;
    WindowSlides(times, h);
    MedianSlides(Window(times, h), Window(times, h + 1), times[h + 1]);
  }

  /** Median time past never decreases along a chain. */
  lemma {:induction false} MedianIsMonotone(times: seq<int>, h: nat, k: nat)
    requires TimesOk(times) && h <= k < |times|
    ensures MedianTimePast(times, h) <= MedianTimePast(times, k)
  {
    hide MedianTimePast, TimesOk;
    if h < k {
      MedianIsMonotone(times, h, k - 1);
      MedianNext(times, k - 1);
    }
  }

  /** Walk back at most eleven blocks. */
  method LastTimes(times: seq<int>, h: nat) returns (pmedian: seq<int>)
    requires h < |times|
    ensures pmedian == Window(times, h)
  {
    hide Window, Slice;
    pmedian := [];
    var i, pindex := 0, h;
    NoTimes(times, h + 1);
    while i < SPAN && pindex >= 0
      invariant 0 <= i <= SPAN && -1 <= pindex == h - i && pmedian == Slice(times, pindex + 1, h + 1)
    {
      OneMore(times, pindex, h + 1);
      pmedian := [times[pindex]] + pmedian;
      i, pindex := i + 1, pindex - 1;
    }
    WindowIs(times, h, pindex + 1);
  }

  /** GetMedianTimePast: the times of at most eleven blocks, sorted, of which it takes the middle. */
  method GetMedianTimePast(times: seq<int>, h: nat) returns (median: int)
    requires h < |times|
    ensures median == MedianTimePast(times, h)
  {
    hide Sort, Window;
    var pmedian := LastTimes(times, h);
    pmedian := SortInPlace(pmedian);
    median := pmedian[|pmedian| / 2];
  }

  function Slice(times: seq<int>, a: int, b: int): seq<int> { if 0 <= a <= b <= |times| then times[a..b] else [] }

  lemma NoTimes(times: seq<int>, a: nat)
    ensures Slice(times, a, a) == []
  {
  }

  lemma OneMore(times: seq<int>, a: nat, b: nat)
    requires a < b <= |times|
    ensures [times[a]] + Slice(times, a + 1, b) == Slice(times, a, b)
  {
  }

  lemma WindowIs(times: seq<int>, h: nat, a: nat)
    requires h < |times| && a <= h && (a == 0 || h + 1 - a == SPAN) && h + 1 - a <= SPAN
    ensures Slice(times, a, h + 1) == Window(times, h)
  {
  }

  /** Sort by insertion. */
  method SortInPlace(s: seq<int>) returns (r: seq<int>)
    ensures r == Sort(s)
  {
    r := [];
    assert s[..0] == [];
    for i := 0 to |s|
      invariant r == Sort(s[..i])
    {
      assert s[..i + 1][..i] == s[..i];
      r := Insert(r, s[i]);
    }
    assert s[..|s|] == s;
  }

  // ---------------------------------------------------------------- relative lock times

  /** An input: its sequence number and the height of the coin it spends. */
  datatype Input = Input(sequence: nat, coinHeight: nat)

  predicate Disabled(sequence: nat) { (sequence / 0x8000_0000) % 2 == 1 }

  predicate InTime(sequence: nat) { (sequence / 0x40_0000) % 2 == 1 }

  function Units(sequence: nat): nat { sequence % 0x1_0000 }

  const GRANULARITY: nat := 512

  function Max(a: int, b: int): int { if a < b then b else a }

  /** The block whose median time past a time lock counts from. */
  function CoinBase(coinHeight: nat): nat { if coinHeight == 0 then 0 else coinHeight - 1 }

  /** BIP 68: what one input demands of the block at height h that contains the transaction. Bit 31 disables
      the lock, bit 22 tells units of 512 seconds from blocks, and the lowest 16 bits hold the number. A time
      lock counts from the block before the one with the coin. */
  ghost predicate InputHolds(times: seq<int>, i: Input, h: nat)
    requires 0 < h < |times| && i.coinHeight - 1 < |times|
  {
    || i.sequence / 2147483648 % 2 == 1
    || if i.sequence / 4194304 % 2 == 1 then
         var from := if i.coinHeight == 0 then 0 else i.coinHeight - 1;
         MedianTimePast(times, h - 1) >= MedianTimePast(times, from) + i.sequence % 65536 * 512
       else
         h >= i.coinHeight + i.sequence % 65536
  }

  /** All coins come from blocks no higher than the one that spends them. */
  predicate CoinsBelow(vin: seq<Input>, h: nat) { forall i :: 0 <= i < |vin| ==> CoinBase(vin[i].coinHeight) <= h }

  ghost predicate AllHold(times: seq<int>, vin: seq<Input>, h: nat)
    requires 0 < h < |times| && CoinsBelow(vin, h)
  {
    forall i :: 0 <= i < |vin| ==> InputHolds(times, vin[i], h)
  }

  /** A pair of last invalid height and time lets a transaction into the block at height k. */
  predicate Admits(times: seq<int>, nMinHeight: int, nMinTime: int, k: nat)
    requires 0 < k < |times|
  {
    nMinHeight < k && nMinTime < MedianTimePast(times, k - 1)
  }

  /** The first n inputs demand no more of the block at height k. */
  ghost predicate FirstHold(times: seq<int>, vin: seq<Input>, n: nat, k: nat)
    requires n <= |vin| && 0 < k < |times| && CoinsBelow(vin, k)
  {
    forall i :: 0 <= i < n ==> InputHolds(times, vin[i], k)
  }

  /** The pair stands for the demands of the first n inputs on all blocks from h on. */
  ghost predicate StandsFor(times: seq<int>, vin: seq<Input>, h: nat, n: nat, nMinHeight: int, nMinTime: int)
    requires n <= |vin| && 0 < h && CoinsBelow(vin, h)
  {
    forall k {:trigger Admits(times, nMinHeight, nMinTime, k)} :: h <= k < |times| ==>
      (Admits(times, nMinHeight, nMinTime, k) <==> FirstHold(times, vin, n, k))
  }

  lemma NothingDemanded(times: seq<int>, vin: seq<Input>, h: nat)
    requires 0 < h && CoinsBelow(vin, h) && forall k :: 0 <= k < |times| ==> times[k] >= 0
    ensures StandsFor(times, vin, h, 0, -1, -1)
  {
    hide MedianTimePast;
    forall k | h <= k < |times|
      ensures Admits(times, -1, -1, k)
    {
      TimesPositive(times, k - 1);
    }
  }

  /** The pair after one more input. */
  function Demanded(times: seq<int>, i: Input, nMinHeight: int, nMinTime: int): (int, int)
    requires CoinBase(i.coinHeight) < |times|
  {
    if Disabled(i.sequence) then (nMinHeight, nMinTime)
    else if InTime(i.sequence) then
      (nMinHeight, Max(nMinTime, MedianTimePast(times, CoinBase(i.coinHeight)) + Units(i.sequence) * GRANULARITY - 1))
    else (Max(nMinHeight, i.coinHeight + Units(i.sequence) - 1), nMinTime)
  }

  lemma DemandedAt(times: seq<int>, i: Input, nMinHeight: int, nMinTime: int, k: nat)
    requires CoinBase(i.coinHeight) < |times| && 0 < k < |times|
    ensures var p := Demanded(times, i, nMinHeight, nMinTime);
            Admits(times, p.0, p.1, k) <==> Admits(times, nMinHeight, nMinTime, k) && InputHolds(times, i, k)
  {
    hide MedianTimePast;
  }

  lemma DemandAdded(times: seq<int>, vin: seq<Input>, h: nat, n: nat, nMinHeight: int, nMinTime: int)
    requires n < |vin| && 0 < h < |times| && CoinsBelow(vin, h) && StandsFor(times, vin, h, n, nMinHeight, nMinTime)
    ensures var p := Demanded(times, vin[n], nMinHeight, nMinTime); StandsFor(times, vin, h, n + 1, p.0, p.1)
  {
    hide Admits, InputHolds, Demanded;
    var p := Demanded(times, vin[n], nMinHeight, nMinTime);
    forall k | h <= k < |times|
      ensures Admits(times, p.0, p.1, k) <==> FirstHold(times, vin, n + 1, k)
    {
      DemandedAt(times, vin[n], nMinHeight, nMinTime, k);
      assert Admits(times, nMinHeight, nMinTime, k) <==> FirstHold(times, vin, n, k);
    }
  }

  /** CalculateSequenceLocks: the last height and time at which the transaction is not final yet, good for
      all blocks from this one on.  The heights of inputs without a lock are set to zero. */
  method CalculateSequenceLocks(times: seq<int>, vin: seq<Input>, h: nat, fEnforceBIP68: bool)
    returns (nMinHeight: int, nMinTime: int, prevHeights: seq<nat>)
    requires 0 < h < |times| && CoinsBelow(vin, h) && forall k :: 0 <= k < |times| ==> times[k] >= 0
    ensures fEnforceBIP68 ==> forall k {:trigger AllHold(times, vin, k)} :: h <= k < |times| ==>
              (nMinHeight < k && nMinTime < MedianTimePast(times, k - 1) <==> AllHold(times, vin, k))
    ensures !fEnforceBIP68 ==> nMinHeight == -1 && nMinTime == -1
    ensures |prevHeights| == |vin|
    ensures forall i ::
              0 <= i < |vin| ==>
              prevHeights[i] == if fEnforceBIP68 && Disabled(vin[i].sequence) then 0 else vin[i].coinHeight
  {
    hide Disabled, InTime, Units, MedianTimePast, StandsFor, AllHold;
    nMinHeight, nMinTime := -1, -1;
    prevHeights := seq(|vin|, i requires 0 <= i < |vin| => vin[i].coinHeight);
    if !fEnforceBIP68 {
      return;
    }
    NothingDemanded(times, vin, h);
    for txinIndex := 0 to |vin|
      invariant |prevHeights| == |vin|
      invariant forall i ::
                  0 <= i < |vin| ==>
                  prevHeights[i] == if i < txinIndex && Disabled(vin[i].sequence) then 0 else vin[i].coinHeight
      invariant StandsFor(times, vin, h, txinIndex, nMinHeight, nMinTime)
    {
      DemandAdded(times, vin, h, txinIndex, nMinHeight, nMinTime);
      var nSequence := vin[txinIndex].sequence;
      if Disabled(nSequence) {
        prevHeights := prevHeights[txinIndex := 0];
        continue;
      }
      var nCoinHeight := prevHeights[txinIndex];
      if InTime(nSequence) {
        var nCoinTime := GetMedianTimePast(times, CoinBase(nCoinHeight));
        nMinTime := Max(nMinTime, nCoinTime + Units(nSequence) * GRANULARITY - 1);
      } else {
        nMinHeight := Max(nMinHeight, nCoinHeight + Units(nSequence) - 1);
      }
    }
    DemandsAre(times, vin, h, nMinHeight, nMinTime);
  }

  lemma DemandsAre(times: seq<int>, vin: seq<Input>, h: nat, nMinHeight: int, nMinTime: int)
    requires 0 < h && CoinsBelow(vin, h) && StandsFor(times, vin, h, |vin|, nMinHeight, nMinTime)
    ensures forall k {:trigger AllHold(times, vin, k)} :: h <= k < |times| ==>
              (nMinHeight < k && nMinTime < MedianTimePast(times, k - 1) <==> AllHold(times, vin, k))
  {
    hide MedianTimePast, InputHolds;
    forall k | h <= k < |times|
      ensures nMinHeight < k && nMinTime < MedianTimePast(times, k - 1) <==> AllHold(times, vin, k)
    {
      assert Admits(times, nMinHeight, nMinTime, k) <==> FirstHold(times, vin, |vin|, k);
    }
  }

  lemma TimesPositive(times: seq<int>, h: nat)
    requires h < |times| && forall k :: 0 <= k < |times| ==> times[k] >= 0
    ensures MedianTimePast(times, h) >= 0
  {
    hide Median;
    var w := Window(times, h);
    NoneBelow(w, 0);
    MedianAtLeast(w, 0);
  }

  lemma {:induction false} NoneBelow(s: seq<int>, x: int)
    requires forall i :: 0 <= i < |s| ==> s[i] >= x
    ensures Below(s, x) == 0
  {
    if s != [] {
      NoneBelow(s[..|s| - 1], x);
    }
  }

  /** SequenceLocks is BIP 68: true exactly when every input's demand is met. */
  method SequenceLocks(times: seq<int>, vin: seq<Input>, h: nat, fEnforceBIP68: bool) returns (r: bool)
    requires 0 < h < |times| && CoinsBelow(vin, h) && forall k :: 0 <= k < |times| ==> times[k] >= 0
    ensures r <==> !fEnforceBIP68 || AllHold(times, vin, h)
  {
    hide MedianTimePast, AllHold;
    var nMinHeight, nMinTime, _ := CalculateSequenceLocks(times, vin, h, fEnforceBIP68);
    var nBlockTime := GetMedianTimePast(times, h - 1);
    TimesPositive(times, h - 1);
    r := !(nMinHeight >= h || nMinTime >= nBlockTime);
  }

  /** Once a transaction's relative locks hold, they hold in every block further down the chain. */
  lemma LocksPersist(times: seq<int>, vin: seq<Input>, h: nat, k: nat)
    requires TimesOk(times) && 0 < h <= k < |times| && CoinsBelow(vin, h) && AllHold(times, vin, h)
    ensures CoinsBelow(vin, k) && AllHold(times, vin, k)
  {
    hide MedianTimePast, TimesOk;
    MedianIsMonotone(times, h - 1, k - 1);
  }
}
