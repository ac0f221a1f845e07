/** CRollingBloomFilter: two bits per position tell in which of three rolling generations it was
    last set; the oldest generation is wiped word by word when its number is used again. */
module RollingBloom {
  import opened Arithmetic

  // ---------------------------------------------------------------- words

  function And(p: bv64, q: bv64): bv64 { p & q }

  function Or(p: bv64, q: bv64): bv64 { p | q }

  function Xor(p: bv64, q: bv64): bv64 { p ^ q }

  /** -(uint64_t)1 or 0. */
  function AllOnes(on: bool): bv64 { if on then !(0 as bv64) else 0 }

  predicate Bit(w: bv64, b: bv64)
    requires b < 64
  {
    (w >> b) & 1 == 1
  }

  /** The code's idiom for writing one bit. */
  function WithBit(w: bv64, b: bv64, on: bool): bv64
    requires b < 64
  {
    (w & !((1 as bv64) << b)) | ((if on then 1 as bv64 else 0) << b)
  }

  lemma WithBitHere(w: bv64, b: bv64, on: bool)
    requires b < 64
    ensures Bit(WithBit(w, b, on), b) == on
  {
  }

  lemma WithBitKeepsOne(w: bv64, b: bv64, on: bool, c: bv64)
    requires b < 64 && c < 64 && c != b
    ensures Bit(w, c) ==> Bit(WithBit(w, b, on), c)
  {
  }

  lemma WithBitKeepsZero(w: bv64, b: bv64, on: bool, c: bv64)
    requires b < 64 && c < 64 && c != b
    ensures !Bit(w, c) ==> !Bit(WithBit(w, b, on), c)
  {
  }

  lemma WithBitIs(w: bv64, b: bv64, on: bool, c: bv64)
    requires b < 64 && c < 64
    ensures Bit(WithBit(w, b, on), c) == if c == b then on else Bit(w, c)
  {
    hide Bit, WithBit;
    if c == b {
      WithBitHere(w, b, on);
    } else {
      WithBitKeepsOne(w, b, on, c);
      WithBitKeepsZero(w, b, on, c);
    }
  }

  lemma BitOrEither(p: bv64, q: bv64, c: bv64)
    requires c < 64
    ensures Bit(p, c) ==> Bit(Or(p, q), c)
  {
  }

  lemma BitOrNeither(p: bv64, q: bv64, c: bv64)
    requires c < 64
    ensures !Bit(p, c) && !Bit(q, c) ==> !Bit(Or(p, q), c)
  {
  }

  lemma OrSwaps(p: bv64, q: bv64)
    ensures Or(p, q) == Or(q, p)
  {
  }

  lemma BitOr(p: bv64, q: bv64, c: bv64)
    requires c < 64
    ensures Bit(Or(p, q), c) == (Bit(p, c) || Bit(q, c))
  {
    hide Bit, Or;
    OrSwaps(p, q);
    BitOrEither(p, q, c);
    BitOrEither(q, p, c);
    BitOrNeither(p, q, c);
  }

  lemma BitAndBoth(p: bv64, q: bv64, c: bv64)
    requires c < 64
    ensures Bit(p, c) && Bit(q, c) ==> Bit(And(p, q), c)
  {
  }

  lemma BitAndOne(p: bv64, q: bv64, c: bv64)
    requires c < 64
    ensures !Bit(p, c) ==> !Bit(And(p, q), c)
  {
  }

  lemma AndSwaps(p: bv64, q: bv64)
    ensures And(p, q) == And(q, p)
  {
  }

  lemma BitAnd(p: bv64, q: bv64, c: bv64)
    requires c < 64
    ensures Bit(And(p, q), c) == (Bit(p, c) && Bit(q, c))
  {
    hide Bit, And;
    AndSwaps(p, q);
    BitAndBoth(p, q, c);
    BitAndOne(p, q, c);
    BitAndOne(q, p, c);
  }

  lemma BitXorOnes(p: bv64, g: bool, c: bv64)
    requires c < 64
    ensures Bit(Xor(p, AllOnes(g)), c) == (Bit(p, c) != g)
  {
  }

  /** The mask that keeps, in a pair of words, all bits but those tagged with a generation. */
  function WipeMask(p1: bv64, p2: bv64, g1: bool, g2: bool): bv64 { Or(Xor(p1, AllOnes(g1)), Xor(p2, AllOnes(g2))) }

  /** 64 positions at once: cleared where both tag bits match, unchanged elsewhere. */
  lemma WipeIs(p1: bv64, p2: bv64, g1: bool, g2: bool, c: bv64)
    requires c < 64
    ensures var mask := WipeMask(p1, p2, g1, g2);
            var same := Bit(p1, c) == g1 && Bit(p2, c) == g2;
            && Bit(And(p1, mask), c) == (Bit(p1, c) && !same)
            && Bit(And(p2, mask), c) == (Bit(p2, c) && !same)
  {
    hide Bit, AllOnes, And, Or, Xor;
    var mask := WipeMask(p1, p2, g1, g2);
    BitAnd(p1, mask, c);
    BitAnd(p2, mask, c);
    BitOr(Xor(p1, AllOnes(g1)), Xor(p2, AllOnes(g2)), c);
    BitXorOnes(p1, g1, c);
    BitXorOnes(p2, g2, c);
  }

  // ---------------------------------------------------------------- tags

  /** A position of the filter: a pair of words and a bit in them. */
  datatype Place = Place(pair: nat, bit: bv64)

  predicate InRange(size: nat, x: Place) { x.bit < 64 && 2 * x.pair + 1 < size }

  /** The generation number at a place, or zero. */
  function Tag(data: seq<bv64>, x: Place): (g: nat)
    requires InRange(|data|, x)
    ensures g < 4
  {
    (if Bit(data[2 * x.pair], x.bit) then 1 else 0) + if Bit(data[2 * x.pair + 1], x.bit) then 2 else 0
  }

  predicate LowBit(g: nat) { g % 2 == 1 }

  predicate HighBit(g: nat) { g / 2 == 1 }

  /** Writing a generation number at a place. */
  function Marked(data: seq<bv64>, x: Place, g: nat): seq<bv64>
    requires InRange(|data|, x)
  {
    data[2 * x.pair := WithBit(data[2 * x.pair], x.bit, LowBit(g))]
        [2 * x.pair + 1 := WithBit(data[2 * x.pair + 1], x.bit, HighBit(g))]
  }

  lemma MarkedIs(data: seq<bv64>, x: Place, g: nat, y: Place)
    requires InRange(|data|, x) && InRange(|data|, y) && 1 <= g <= 3
    ensures Tag(Marked(data, x, g), y) == if y == x then g else Tag(data, y)
  {
    hide Bit, WithBit;
    if y.pair == x.pair {
      WithBitIs(data[2 * x.pair], x.bit, LowBit(g), y.bit);
      WithBitIs(data[2 * x.pair + 1], x.bit, HighBit(g), y.bit);
    }
  }

  /** Every place tagged with `g` was cleared, all others are as before. */
  ghost predicate Wiped(data: seq<bv64>, data': seq<bv64>, g: nat, pairs: nat) {
    |data'| == |data| && forall x: Place {:trigger InRange(|data|, x)} :: InRange(|data|, x) ==>
      Tag(data', x) == if x.pair < pairs && Tag(data, x) == g then 0 else Tag(data, x)
  }

  lemma WipedNext(data: seq<bv64>, cur: seq<bv64>, g: nat, p: nat)
    requires 2 * p + 1 < |data| && 1 <= g <= 3 && Wiped(data, cur, g, p)
    ensures var mask := WipeMask(cur[2 * p], cur[2 * p + 1], LowBit(g), HighBit(g));
            Wiped(data, cur[2 * p := And(cur[2 * p], mask)][2 * p + 1 := And(cur[2 * p + 1], mask)], g, p + 1)
  {
    hide Bit, And, WipeMask;
    var mask := WipeMask(cur[2 * p], cur[2 * p + 1], LowBit(g), HighBit(g));
    var next := cur[2 * p := And(cur[2 * p], mask)][2 * p + 1 := And(cur[2 * p + 1], mask)];
    forall x: Place | InRange(|data|, x)
      ensures Tag(next, x) == if x.pair < p + 1 && Tag(data, x) == g then 0 else Tag(data, x)
    {
      if x.pair == p {
        WipeIs(cur[2 * p], cur[2 * p + 1], LowBit(g), HighBit(g), x.bit);
      }
      assert Tag(cur, x) == if x.pair < p && Tag(data, x) == g then 0 else Tag(data, x);
    }
  }

  // ---------------------------------------------------------------- what the tags mean

  /** The tag that a place last written in generation `stamps[x]` shows in generation `now`. */
  function Expected(stamps: map<Place, nat>, now: nat, x: Place): nat {
    if x in stamps && now <= stamps[x] + 2 then 1 + stamps[x] % 3 else 0
  }

  ghost predicate TagsOk(data: seq<bv64>, stamps: map<Place, nat>, now: nat) {
    && (forall x: Place {:trigger InRange(|data|, x)} ::
         InRange(|data|, x) ==> Tag(data, x) == Expected(stamps, now, x))
    && (forall x {:trigger x in stamps} :: x in stamps ==> InRange(|data|, x) && stamps[x] <= now)
  }

  /** A new generation begins: the tags of the generation before the last two are cleared. */
  lemma WipedTags(data: seq<bv64>, data': seq<bv64>, stamps: map<Place, nat>, now: nat)
    requires TagsOk(data, stamps, now) && Wiped(data, data', 1 + (now + 1) % 3, |data| / 2)
    ensures TagsOk(data', stamps, now + 1)
  {
    hide Tag, Expected;
    forall x: Place | InRange(|data|, x)
      ensures Tag(data', x) == Expected(stamps, now + 1, x)
    {
      assert Tag(data, x) == Expected(stamps, now, x);
      ExpectedNext(stamps, now, x);
    }
  }

  lemma ExpectedNext(stamps: map<Place, nat>, now: nat, x: Place)
    requires x in stamps ==> stamps[x] <= now
    ensures var e := Expected(stamps, now, x); Expected(stamps, now + 1, x) == if e == 1 + (now + 1) % 3 then 0 else e
  {
  }

  lemma MarkedTags(data: seq<bv64>, stamps: map<Place, nat>, now: nat, x: Place)
    requires TagsOk(data, stamps, now) && InRange(|data|, x)
    ensures TagsOk(Marked(data, x, 1 + now % 3), stamps[x := now], now)
  {
    hide Tag, Marked;
    forall y: Place | InRange(|data|, y)
      ensures |Marked(data, x, 1 + now % 3)| == |data|
      ensures Tag(Marked(data, x, 1 + now % 3), y) == Expected(stamps[x := now], now, y)
    {
      MarkedSize(data, x, 1 + now % 3);
      MarkedIs(data, x, 1 + now % 3, y);
    }
    MarkedSize(data, x, 1 + now % 3);
  }

  lemma MarkedSize(data: seq<bv64>, x: Place, g: nat)
    requires InRange(|data|, x)
    ensures |Marked(data, x, g)| == |data|
  {
  }

  // ---------------------------------------------------------------- the filter

  /** h >> 6 as a number. */
  function Upper(h: bv64): nat { (h >> 6) as nat }

  /** Where the n-th hash of a key points to. */
  function PlaceOf<Key>(hash: (nat, Key) -> bv64, size: nat, n: nat, key: Key): (x: Place)
    requires size > 0
  {
    var h := hash(n, key);
    Place(Upper(h) % size / 2, And(h, 0x3F))
  }

  lemma PlaceInRange<Key>(hash: (nat, Key) -> bv64, size: nat, n: nat, key: Key)
    requires size > 0 && size % 2 == 0
    ensures InRange(size, PlaceOf(hash, size, n, key))
  {
    hide And, Upper;
    SixBits(hash(n, key));
  }

  lemma SixBits(h: bv64)
    ensures And(h, 0x3F) < 64
  {
  }

  /** All places of a key were written in generation `g` or later. */
  ghost predicate Stamped<Key>(hash: (nat, Key) -> bv64, size: nat, funcs: nat, stamps: map<Place, nat>, key: Key,
      g: nat)
    requires size > 0
  {
    forall n {:trigger PlaceOf(hash, size, n, key)} :: 0 <= n < funcs ==>
      PlaceOf(hash, size, n, key) in stamps && stamps[PlaceOf(hash, size, n, key)] >= g
  }

  /** Some insertion wrote this place, in generation `g`. */
  ghost predicate Source<Key(!new)>(hash: (nat, Key) -> bv64, size: nat, funcs: nat, history: seq<Key>, gens: seq<nat>,
      x: Place, g: nat)
    requires size > 0 && |gens| == |history|
  {
    exists i, n {:trigger PlaceOf(hash, size, n, history[i])} ::
      0 <= i < |history| && 0 <= n < funcs && PlaceOf(hash, size, n, history[i]) == x && gens[i] == g
  }

  /** Nothing else did. */
  ghost predicate Sourced<Key(!new)>(hash: (nat, Key) -> bv64, size: nat, funcs: nat, history: seq<Key>, gens: seq<nat>,
      stamps: map<Place, nat>)
    requires size > 0 && |gens| == |history|
  {
    forall x {:trigger x in stamps} :: x in stamps ==> Source(hash, size, funcs, history, gens, x, stamps[x])
  }

  lemma SourcedMore<Key(!new)>(hash: (nat, Key) -> bv64, size: nat, funcs: nat, history: seq<Key>, gens: seq<nat>,
      stamps: map<Place, nat>, key: Key, g: nat)
    requires size > 0 && |gens| == |history| && Sourced(hash, size, funcs, history, gens, stamps)
    ensures Sourced(hash, size, funcs, history + [key], gens + [g], stamps)
  {
    hide PlaceOf;
    forall x | x in stamps
      ensures Source(hash, size, funcs, history + [key], gens + [g], x, stamps[x])
    {
      var i, n :| 0 <= i < |history| && 0 <= n < funcs && PlaceOf(hash, size, n, history[i]) == x
          && gens[i] == stamps[x];
      assert (history + [key])[i] == history[i] && (gens + [g])[i] == gens[i];
    }
  }

  lemma SourcedPlace<Key(!new)>(hash: (nat, Key) -> bv64, size: nat, funcs: nat, history: seq<Key>, gens: seq<nat>,
      stamps: map<Place, nat>, i: nat, n: nat)
    requires size > 0 && |gens| == |history| && Sourced(hash, size, funcs, history, gens, stamps)
    requires i < |history| && n < funcs
    ensures Sourced(hash, size, funcs, history, gens, stamps[PlaceOf(hash, size, n, history[i]) := gens[i]])
  {
    hide PlaceOf;
    var x := PlaceOf(hash, size, n, history[i]);
    assert Source(hash, size, funcs, history, gens, x, gens[i]);
  }

  /** The two hashes fall together: the same bit of the same pair of words. */
  predicate Meets(h: bv64, h': bv64, size: nat)
    requires size > 0
  {
    h & 0x3F == h' & 0x3F && (h >> 6) as nat % size / 2 == (h' >> 6) as nat % size / 2
  }

  lemma MeetsIs<Key>(hash: (nat, Key) -> bv64, size: nat, n: nat, key: Key, n': nat, key': Key)
    requires size > 0
    ensures Meets(hash(n, key), hash(n', key'), size) <==> PlaceOf(hash, size, n, key) == PlaceOf(hash, size, n', key')
  {
  }

  class Filter<Key(!new)> {
    const nEntriesPerGeneration: nat
    const nHashFuncs: nat
    const data: array<bv64>
    var hash: (nat, Key) -> bv64       // MurmurHash3 with the current nTweak
    var nEntriesThisGeneration: nat
    var nGeneration: nat

    ghost var history: seq<Key>        // what was inserted since the last reset
    ghost var gens: seq<nat>           // in which generation
    ghost var now: nat                 // generations so far
    ghost var stamps: map<Place, nat>  // the generation in which a place was last written

    /** Generation g holds the insertions number g * nEntriesPerGeneration and following. */
    ghost predicate Counted()
      reads this
    {
      && |gens| == |history| == now * nEntriesPerGeneration + nEntriesThisGeneration
      && nEntriesThisGeneration <= nEntriesPerGeneration
      && forall i {:trigger gens[i]} :: 0 <= i < |gens| ==>
           gens[i] <= now
             && gens[i] * nEntriesPerGeneration <= i < gens[i] * nEntriesPerGeneration + nEntriesPerGeneration
    }

    ghost predicate Remembered()
      requires data.Length > 0
      reads this
    {
      forall i {:trigger history[i]} ::
            0 <= i < |history| && i < |gens| ==> Stamped(hash, data.Length, nHashFuncs, stamps, history[i], gens[i])
    }

    ghost predicate Valid()
      reads this, data
    {
      && data.Length > 0 && data.Length % 2 == 0 && nEntriesPerGeneration > 0
      && nGeneration == 1 + now % 3
      && Counted() && Remembered() && TagsOk(data[..], stamps, now)
      && Sourced(hash, data.Length, nHashFuncs, history, gens, stamps)
    }

    /** `size` is the number of words, as computed from the error rate.  A filter for no elements has no
        words; it must not be used, since inserting and looking up take a remainder modulo their number. */
    constructor (nElements: nat, nHashFuncs: nat, size: nat, hash: (nat, Key) -> bv64)
      requires size % 2 == 0 && (size > 0 <==> nElements > 0)
      ensures (Valid() <==> nElements > 0) && history == [] && fresh(data) && data.Length == size
      ensures nElements <= 2 * nEntriesPerGeneration <= nElements + 1 && this.nHashFuncs == nHashFuncs
    {
      nEntriesPerGeneration := (nElements + 1) / 2;
      this.nHashFuncs := nHashFuncs;
      data := new bv64[size](i => 0);
      this.hash := hash;
      nEntriesThisGeneration, nGeneration := 0, 1;
      history, gens, now, stamps := [], [], 0, map[];
      new;
      NothingSet(data[..]);
    }

    method Reset(hash: (nat, Key) -> bv64)
      requires Valid()
      modifies this, data
      ensures Valid() && history == []
    {
      this.hash := hash;
      nEntriesThisGeneration, nGeneration := 0, 1;
      history, gens, now, stamps := [], [], 0, map[];
      for i := 0 to data.Length
        invariant forall j :: 0 <= j < i ==> data[j] == 0
        modifies data
      {
        data[i] := 0;
      }
      NothingSet(data[..]);
    }

    method Insert(vKey: Key)
      requires Valid()
      modifies this, data
      ensures Valid() && history == old(history) + [vKey] && hash == old(hash)
    {
      hide TagsOk, Stamped, Sourced;
      if nEntriesThisGeneration == nEntriesPerGeneration {
        NextGeneration();
      }
      nEntriesThisGeneration := nEntriesThisGeneration + 1;
      SourcedMore(hash, data.Length, nHashFuncs, history, gens, stamps, vKey, now);
      history, gens := history + [vKey], gens + [now];
      Mark(vKey);
    }

    method NextGeneration()
      requires Valid() && nEntriesThisGeneration == nEntriesPerGeneration
      modifies this, data
      ensures Valid() && nEntriesThisGeneration == 0
      ensures history == old(history) && hash == old(hash) && gens == old(gens) && now == old(now) + 1
    {
      hide TagsOk, Stamped, Sourced, Wiped, Bit, And, WipeMask;
      nEntriesThisGeneration := 0;
      nGeneration := nGeneration + 1;
      if nGeneration == 4 {
        nGeneration := 1;
      }
      ghost var was := data[..];
      Wipe();
      WipedTags(was, data[..], stamps, now);
      now := now + 1;
      OneMore(now - 1, nEntriesPerGeneration);
    }

    /** Clear the places tagged with the generation about to begin, 64 at a time. */
    method Wipe()
      requires data.Length % 2 == 0 && 1 <= nGeneration <= 3
      modifies data
      ensures Wiped(old(data[..]), data[..], nGeneration, data.Length / 2)
    {
      hide Wiped, Bit, And, WipeMask;
      ghost var was := data[..];
      WipedNone(was, nGeneration);
      var p := 0;
      while p < data.Length
        invariant 0 <= p <= data.Length && p % 2 == 0 && Wiped(was, data[..], nGeneration, p / 2)
      {
        WipedNext(was, data[..], nGeneration, p / 2);
        var p1, p2 := data[p], data[p + 1];
        var mask := WipeMask(p1, p2, nGeneration % 2 == 1, nGeneration / 2 == 1);
        data[p] := And(p1, mask);
        data[p + 1] := And(p2, mask);
        p := p + 2;
      }
    }

    /** Set all places of the key just recorded. */
    method Mark(vKey: Key)
      requires data.Length > 0 && data.Length % 2 == 0 && nEntriesPerGeneration > 0 && nGeneration == 1 + now % 3
      requires Counted() && TagsOk(data[..], stamps, now)
      requires |history| > 0 && |gens| == |history| && history[|history| - 1] == vKey && gens[|gens| - 1] == now
      requires forall i {:trigger history[i]} ::
                 0 <= i < |history| - 1 ==> Stamped(hash, data.Length, nHashFuncs, stamps, history[i], gens[i])
      requires Sourced(hash, data.Length, nHashFuncs, history, gens, stamps)
      modifies this`stamps, data
      ensures Valid()
    {
      hide TagsOk, Stamped, Sourced, Marked, PlaceOf;
      ghost var before := stamps;
      NoneStamped(hash, data.Length, stamps, vKey, now);
      for n := 0 to nHashFuncs
        invariant TagsOk(data[..], stamps, now) && Stamped(hash, data.Length, n, stamps, vKey, now)
        invariant Sourced(hash, data.Length, nHashFuncs, history, gens, stamps)
        invariant forall i {:trigger history[i]} ::
                    0 <= i < |history| - 1 ==> Stamped(hash, data.Length, nHashFuncs, stamps, history[i], gens[i])
        modifies this`stamps, data
      {
        ghost var x := PlaceOf(hash, data.Length, n, vKey);
        PlaceInRange(hash, data.Length, n, vKey);
        MarkedTags(data[..], stamps, now, x);
        StampedMore(hash, data.Length, stamps, vKey, now, n);
        SourcedPlace(hash, data.Length, nHashFuncs, history, gens, stamps, |history| - 1, n);
        forall i | 0 <= i < |history| - 1
          ensures Stamped(hash, data.Length, nHashFuncs, stamps[x := now], history[i], gens[i])
        {
          StampedStill(hash, data.Length, nHashFuncs, stamps, history[i], gens[i], x, now);
        }
        SetPlace(vKey, n);
        stamps := stamps[x := now];
      }
    }

    /** Write the current generation number at the n-th place of a key. */
    method SetPlace(vKey: Key, n: nat)
      requires data.Length > 0 && data.Length % 2 == 0
      modifies data
      ensures InRange(data.Length, PlaceOf(hash, data.Length, n, vKey))
      ensures data[..] == Marked(old(data[..]), PlaceOf(hash, data.Length, n, vKey), nGeneration)
    {
      hide WithBit, And, Upper;
      PlaceInRange(hash, data.Length, n, vKey);
      var h := hash(n, vKey);
      var bit := And(h, 0x3F);
      var pos := Upper(h) % data.Length;
      var even := pos / 2 * 2;
      data[even] := WithBit(data[even], bit, nGeneration % 2 == 1);
      data[even + 1] := WithBit(data[even + 1], bit, nGeneration / 2 == 1);
    }

    /** Whether all places of a key carry some tag. */
    method Contains(vKey: Key) returns (r: bool)
      requires data.Length > 0 && data.Length % 2 == 0
      ensures r <==> forall n :: 0 <= n < nHashFuncs ==> HasTag(data[..], hash, n, vKey)
    {
      hide Bit, And, Or, Upper;
      for n := 0 to nHashFuncs
        invariant forall m :: 0 <= m < n ==> HasTag(data[..], hash, m, vKey)
      {
        PlaceInRange(hash, data.Length, n, vKey);
        var h := hash(n, vKey);
        var bit := And(h, 0x3F);
        var pos := Upper(h) % data.Length;
        var even := pos / 2 * 2;
        BitOr(data[even], data[even + 1], bit);
        if !Bit(Or(data[even], data[even + 1]), bit) {
          assert !HasTag(data[..], hash, n, vKey);
          return false;
        }
      }
      return true;
    }

    /** One of the last 2 * nEntriesPerGeneration + nEntriesThisGeneration insertions. */
    ghost predicate Recent(i: int)
      reads this
    {
      i + 2 * nEntriesPerGeneration + nEntriesThisGeneration >= |history|
    }

    /** Each recent insertion is still found. */
    lemma RecentIsContained(i: nat)
      requires Valid() && i < |history| && Recent(i)
      ensures forall n :: 0 <= n < nHashFuncs ==> HasTag(data[..], hash, n, history[i])
    {
      hide Tag;
      RecentGeneration(gens[i], now, nEntriesPerGeneration, i);
      assert Stamped(hash, data.Length, nHashFuncs, stamps, history[i], gens[i]);
      forall n | 0 <= n < nHashFuncs
        ensures HasTag(data[..], hash, n, history[i])
      {
        PlaceInRange(hash, data.Length, n, history[i]);
        var x := PlaceOf(hash, data.Length, n, history[i]);
        assert Tag(data[..], x) == Expected(stamps, now, x);
      }
    }

    /** The n-th hash of a key falls together with a hash of a recent insertion. */
    ghost predicate Shared(n: nat, key: Key)
      requires data.Length > 0
      reads this
    {
      exists i, k {:trigger hash(k, history[i])} ::
        && 0 <= i < |history| && Recent(i) && 0 <= k < nHashFuncs
        && Meets(hash(n, key), hash(k, history[i]), data.Length)
    }

    /** A place is tagged exactly when it is that of a recent insertion. */
    lemma TaggedIsRecent(n: nat, key: Key)
      requires Valid()
      ensures HasTag(data[..], hash, n, key) <==> Shared(n, key)
    {
      hide Tag, PlaceOf, Meets;
      PlaceInRange(hash, data.Length, n, key);
      var x := PlaceOf(hash, data.Length, n, key);
      assert Tag(data[..], x) == Expected(stamps, now, x);
      if HasTag(data[..], hash, n, key) {
        assert Source(hash, data.Length, nHashFuncs, history, gens, x, stamps[x]);
        var i, k :| 0 <= i < |history| && 0 <= k < nHashFuncs && PlaceOf(hash, data.Length, k, history[i]) == x
                    && gens[i] == stamps[x];
        MeetsIs(hash, data.Length, n, key, k, history[i]);
        GenerationRecent(gens[i], now, nEntriesPerGeneration, i);
        assert Recent(i) && Meets(hash(n, key), hash(k, history[i]), data.Length);
      }
      if i, k :| 0 <= i < |history| && Recent(i) && 0 <= k < nHashFuncs
                 && Meets(hash(n, key), hash(k, history[i]), data.Length) {
        MeetsIs(hash, data.Length, n, key, k, history[i]);
        RecentGeneration(gens[i], now, nEntriesPerGeneration, i);
        assert Stamped(hash, data.Length, nHashFuncs, stamps, history[i], gens[i]);
      }
    }

    /** What the filter promises its users: the last nElements insertions are never missed, and a key is found
        exactly when each of its hashes falls together with one of a recent insertion. */
    method Query(vKey: Key, nElements: nat) returns (r: bool)
      requires Valid() && nElements <= 2 * nEntriesPerGeneration
      ensures r <==> forall n :: 0 <= n < nHashFuncs ==> Shared(n, vKey)
      ensures (exists i :: 0 <= i < |history| && i + nElements >= |history| && history[i] == vKey) ==> r
      ensures (exists i :: 0 <= i < |history| && Recent(i) && history[i] == vKey) ==> r
    {
      hide Tag, TagsOk, Stamped, Sourced, Counted, Meets, HasTag, Shared;
      r := Contains(vKey);
      forall n | 0 <= n < nHashFuncs
        ensures HasTag(data[..], hash, n, vKey) <==> Shared(n, vKey)
      {
        TaggedIsRecent(n, vKey);
      }
      if i :| 0 <= i < |history| && Recent(i) && history[i] == vKey {
        RecentIsContained(i);
      }
    }
  }

  predicate HasTag<Key>(data: seq<bv64>, hash: (nat, Key) -> bv64, n: nat, key: Key) {
    && |data| > 0 && InRange(|data|, PlaceOf(hash, |data|, n, key))
    && Tag(data, PlaceOf(hash, |data|, n, key)) != 0
  }

  lemma NothingSet(data: seq<bv64>)
    requires forall i :: 0 <= i < |data| ==> data[i] == 0
    ensures TagsOk(data, map[], 0)
  {
    hide Bit;
    forall x: Place | InRange(|data|, x)
      ensures Tag(data, x) == 0
    {
      ZeroBit(x.bit);
    }
  }

  lemma ZeroBit(b: bv64)
    requires b < 64
    ensures !Bit(0, b)
  {
  }

  lemma WipedNone(data: seq<bv64>, g: nat)
    ensures Wiped(data, data, g, 0)
  {
    hide Tag;
  }

  lemma OneMore(n: nat, p: nat)
    ensures (n + 1) * p == n * p + p
  {
  }

  /** Item i belongs to one of the last three generations. */
  lemma RecentGeneration(g: nat, now: nat, p: nat, i: nat)
    requires p > 0 && i < g * p + p && i + 2 * p >= now * p
    ensures now <= g + 2
  {
    var k := now - g - 3;
    assert k * p == now * p - g * p - 3 * p;
    if k >= 0 {
      NatMul(k, p);
    }
  }

  /** An item of the last three generations is recent. */
  lemma GenerationRecent(g: nat, now: nat, p: nat, i: nat)
    requires now <= g + 2 && g * p <= i
    ensures i + 2 * p >= now * p
  {
    var k := g + 2 - now;
    NatMul(k, p);
    assert k * p == g * p + 2 * p - now * p;
  }

  lemma NoneStamped<Key>(hash: (nat, Key) -> bv64, size: nat, stamps: map<Place, nat>, key: Key, g: nat)
    requires size > 0
    ensures Stamped(hash, size, 0, stamps, key, g)
  {
  }

  lemma StampedMore<Key>(hash: (nat, Key) -> bv64, size: nat, stamps: map<Place, nat>, key: Key, g: nat, n: nat)
    requires size > 0 && Stamped(hash, size, n, stamps, key, g)
    ensures Stamped(hash, size, n + 1, stamps[PlaceOf(hash, size, n, key) := g], key, g)
  {
    hide PlaceOf;
  }

  lemma StampedStill<Key>(hash: (nat, Key) -> bv64, size: nat, funcs: nat, stamps: map<Place, nat>, key: Key, g: nat,
      x: Place, now: nat)
    requires size > 0 && Stamped(hash, size, funcs, stamps, key, g) && g <= now
    ensures Stamped(hash, size, funcs, stamps[x := now], key, g)
  {
    hide PlaceOf;
  }
}
