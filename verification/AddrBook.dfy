/** The address manager: five mutually redundant indexes over known peers, and the consistency
    that CAddrMan::Check_ asks of them. */
module AddrBook {

  const TRIED_BUCKET_COUNT: nat := 256
  const NEW_BUCKET_COUNT: nat := 1024
  const BUCKET_SIZE: nat := 64
  const NEW_BUCKETS_PER_ADDRESS: nat := 8
  const HORIZON: int := 30 * 24 * 60 * 60
  const RETRIES: int := 3
  const MAX_FAILURES: int := 10
  const MIN_FAIL: int := 7 * 24 * 60 * 60

  type NetAddr = nat

  /** A network address with a port (CService). */
  datatype Service = Service(net: NetAddr, port: nat)

  datatype Info = Info(
    who: Service, source: NetAddr, time: int, services: bv64,
    lastTry: int, lastCountAttempt: int, lastSuccess: int, attempts: int,
    refCount: int, inTried: bool, randomPos: int)

  type Infos = map<int, Info>

  datatype Slot = Slot(bucket: nat, pos: nat)

  /** The keyed hashes that place an address; any functions will do. */
  datatype Hasher = Hasher(tried: Service -> nat, fresh_: (Service, NetAddr) -> nat,
      position: (bool, nat, Service) -> nat)

  function Position(h: Hasher, isNew: bool, bucket: nat, who: Service): nat {
    h.position(isNew, bucket, who) % BUCKET_SIZE
  }

  function TriedSlot(h: Hasher, who: Service): (s: Slot)
    ensures s.bucket < TRIED_BUCKET_COUNT && s.pos < BUCKET_SIZE
  {
    var bucket := h.tried(who) % TRIED_BUCKET_COUNT;
    Slot(bucket, Position(h, false, bucket, who))
  }

  /** The slot of an address in a given "new" bucket. */
  function SlotIn(h: Hasher, bucket: nat, who: Service): Slot { Slot(bucket, Position(h, true, bucket, who)) }

  function NewSlot(h: Hasher, who: Service, source: NetAddr): (s: Slot)
    ensures s.bucket < NEW_BUCKET_COUNT && s.pos < BUCKET_SIZE && s == SlotIn(h, s.bucket, who)
  {
    SlotIn(h, h.fresh_(who, source) % NEW_BUCKET_COUNT, who)
  }

  predicate IsTerrible(i: Info, now: int) {
    if i.lastTry != 0 && i.lastTry >= now - 60 then false
    else
      || i.time > now + 10 * 60
      || i.time == 0 || now - i.time > HORIZON
      || (i.lastSuccess == 0 && i.attempts >= RETRIES)
      || (now - i.lastSuccess > MIN_FAIL && i.attempts >= MAX_FAILURES)
  }

  // ---------------------------------------------------------------- the invariant, index by index

  /** vRandom and the back pointers are inverse to each other. */
  predicate RandomOk(infos: Infos, random: seq<int>) {
    && (forall i :: 0 <= i < |random| ==> random[i] in infos && infos[random[i]].randomPos == i)
    && (forall id {:trigger id in infos} ::
         id in infos ==> 0 <= infos[id].randomPos < |random| && random[infos[id].randomPos] == id)
  }

  /** mapAddr finds every entry by its address, and nothing else. */
  ghost predicate AddrOk(infos: Infos, addrs: map<NetAddr, int>) {
    && (forall a {:trigger a in addrs} :: a in addrs ==> addrs[a] in infos && infos[addrs[a]].who.net == a)
    && (forall id {:trigger id in infos} ::
         id in infos ==> infos[id].who.net in addrs && addrs[infos[id].who.net] == id)
  }

  /** The tried table holds the tried entries, each in its own slot. */
  ghost predicate TriedOk(h: Hasher, infos: Infos, tried: map<Slot, int>) {
    && (forall s {:trigger s in tried} ::
         s in tried ==> tried[s] in infos && infos[tried[s]].inTried && TriedSlot(h, infos[tried[s]].who) == s)
    && (forall id {:trigger id in infos} ::
         id in infos && infos[id].inTried ==>
         TriedSlot(h, infos[id].who) in tried && tried[TriedSlot(h, infos[id].who)] == id)
  }

  /** The new table holds entries that are not tried, each where its bucket demands. */
  ghost predicate NewOk(h: Hasher, infos: Infos, news: map<Slot, int>) {
    forall s {:trigger s in news} :: s in news ==>
      && s.bucket < NEW_BUCKET_COUNT && news[s] in infos && !infos[news[s]].inTried
      && s == SlotIn(h, s.bucket, infos[news[s]].who)
  }

  /** Where entries sit, in terms of the hashes: 256 and 1024 buckets of 64 slots, a hash for the bucket and
      one for the slot, which differs between the tables. */
  lemma SlotsAreHashed(h: Hasher, infos: Infos, tried: map<Slot, int>, news: map<Slot, int>, who: Service,
      source: NetAddr)
    requires TriedOk(h, infos, tried) && NewOk(h, infos, news)
    ensures forall id {:trigger infos[id].inTried} :: id in infos && infos[id].inTried ==>
              var k := h.tried(infos[id].who) % 256;
              var s := Slot(k, h.position(false, k, infos[id].who) % 64);
              s in tried && tried[s] == id
    ensures forall s {:trigger s in news} :: s in news ==>
              s.bucket < 1024 && news[s] in infos && s.pos == h.position(true, s.bucket, infos[news[s]].who) % 64
    ensures var k := h.fresh_(who, source) % 1024; NewSlot(h, who, source) == Slot(k, h.position(true, k, who) % 64)
  {
  }

  /** The buckets of the new table in which an entry occurs. */
  function Occurs(h: Hasher, news: map<Slot, int>, id: int, who: Service): set<nat> {
    set b: nat | b < NEW_BUCKET_COUNT && SlotIn(h, b, who) in news && news[SlotIn(h, b, who)] == id
  }

  /** Reference counts are exact. */
  ghost predicate RefsOk(h: Hasher, infos: Infos, news: map<Slot, int>) {
    forall id {:trigger id in infos} :: id in infos ==> infos[id].refCount == |Occurs(h, news, id, infos[id].who)|
  }

  /** Entries in `loose` are in none of the tables; every other one is in a table. */
  predicate InfoOk(i: Info, isLoose: bool) {
    && i.lastTry >= 0 && i.lastSuccess >= 0
    && (isLoose ==> i.refCount == 0 && !i.inTried)
    && (i.inTried ==> i.lastSuccess != 0 && i.refCount == 0)
    && (!isLoose && !i.inTried ==> 1 <= i.refCount <= NEW_BUCKETS_PER_ADDRESS)
  }

  ghost predicate InfosOk(infos: Infos, loose: set<int>, idCount: int) {
    && loose <= infos.Keys && 0 <= idCount
    && (forall id {:trigger id in infos} :: id in infos ==> 0 <= id < idCount && InfoOk(infos[id], id in loose))
  }

  function Tried(infos: Infos): set<int> { set id | id in infos && infos[id].inTried }

  /** The counters are exact, except that `uncounted` entries are not in nNew. */
  ghost predicate CountsOk(infos: Infos, nTried: int, nNew: int, uncounted: nat) {
    nTried == |Tried(infos)| && nNew == |infos| - |Tried(infos)| - uncounted
  }

  // ---------------------------------------------------------------- small facts

  /** All of the manager's data but the time of the last success. */
  datatype Book = Book(
    infos: Infos, addrs: map<NetAddr, int>, random: seq<int>,
    tried: map<Slot, int>, news: map<Slot, int>, nTried: int, nNew: int, idCount: int)

  /** Everything but vRandom. */
  ghost predicate IndexOk(h: Hasher, b: Book, loose: set<int>, uncounted: nat) {
    var consistent :=
      && AddrOk(b.infos, b.addrs) && TriedOk(h, b.infos, b.tried)
      && NewOk(h, b.infos, b.news) && RefsOk(h, b.infos, b.news)
      && InfosOk(b.infos, loose, b.idCount) && CountsOk(b.infos, b.nTried, b.nNew, uncounted);
    consistent
  }

  ghost predicate Ok(h: Hasher, b: Book, loose: set<int>, uncounted: nat) {
    var consistent := RandomOk(b.infos, b.random) && IndexOk(h, b, loose, uncounted);
    consistent
  }

  lemma OccursInsert(h: Hasher, news: map<Slot, int>, s: Slot, id: int, who: Service, other: int, whose: Service)
    requires s.bucket < NEW_BUCKET_COUNT && s == SlotIn(h, s.bucket, who) && s !in news
    ensures Occurs(h, news[s := id], id, who) == Occurs(h, news, id, who) + {s.bucket}
    ensures s.bucket !in Occurs(h, news, id, who)
    ensures other != id ==> Occurs(h, news[s := id], other, whose) == Occurs(h, news, other, whose)
  {}

  lemma OccursRemove(h: Hasher, news: map<Slot, int>, s: Slot, who: Service, other: int, whose: Service)
    requires s in news && s.bucket < NEW_BUCKET_COUNT && s == SlotIn(h, s.bucket, who)
    ensures Occurs(h, news - {s}, news[s], who) == Occurs(h, news, news[s], who) - {s.bucket}
    ensures s.bucket in Occurs(h, news, news[s], who)
    ensures other != news[s] ==> Occurs(h, news - {s}, other, whose) == Occurs(h, news, other, whose)
  {}

  /** Same entries, with the same addresses, in the same of the two tables. */
  predicate SameFace(infos: Infos, infos': Infos) {
    && infos'.Keys == infos.Keys
    && forall id {:trigger id in infos} ::
         id in infos ==> infos'[id].who == infos[id].who && infos'[id].inTried == infos[id].inTried
  }

  lemma FaceKeepsTables(h: Hasher, infos: Infos, infos': Infos, tried: map<Slot, int>, news: map<Slot, int>)
    requires SameFace(infos, infos')
    ensures TriedOk(h, infos, tried) ==> TriedOk(h, infos', tried)
    ensures NewOk(h, infos, news) ==> NewOk(h, infos', news)
  {
    if TriedOk(h, infos, tried) {
      forall s | s in tried
        ensures tried[s] in infos' && infos'[tried[s]].inTried && TriedSlot(h, infos'[tried[s]].who) == s
      {
        var id := tried[s];
        assert id in infos;
      }
    }
    if NewOk(h, infos, news) {
      forall s | s in news
        ensures s.bucket < NEW_BUCKET_COUNT && news[s] in infos' && !infos'[news[s]].inTried
                && s == SlotIn(h, s.bucket, infos'[news[s]].who)
      {
        var id := news[s];
        assert id in infos;
      }
    }
  }

  lemma FaceKeepsAddrs(infos: Infos, infos': Infos, addrs: map<NetAddr, int>)
    requires SameFace(infos, infos')
    ensures AddrOk(infos, addrs) ==> AddrOk(infos', addrs)
    ensures Tried(infos') == Tried(infos) && |infos'| == |infos|
  {
    if AddrOk(infos, addrs) {
      forall a | a in addrs
        ensures addrs[a] in infos' && infos'[addrs[a]].who.net == a
      {
        var id := addrs[a];
        assert id in infos;
      }
    }
    assert |infos'.Keys| == |infos.Keys|;
    forall id | id in infos
      ensures id in Tried(infos') <==> id in Tried(infos)
    {
      assert infos'[id].inTried == infos[id].inTried;
    }
  }

  /** `infos'` differs from `infos` in back pointers only. */
  predicate OnlyMoved(infos: Infos, infos': Infos) {
    infos'.Keys == infos.Keys
      && forall id {:trigger id in infos} :: id in infos ==> infos'[id] == infos[id].(randomPos := infos'[id].randomPos)
  }

  // What changing one entry does to the parts of the invariant.

  lemma OneFace(infos: Infos, id: int, i: Info)
    requires id in infos && i.who == infos[id].who && i.inTried == infos[id].inTried
    ensures SameFace(infos, infos[id := i])
  {
  }

  lemma OneRefs(h: Hasher, infos: Infos, news: map<Slot, int>, id: int, i: Info)
    requires RefsOk(h, infos, news) && id in infos && i.who == infos[id].who && i.refCount == infos[id].refCount
    ensures RefsOk(h, infos[id := i], news)
  {
    hide Occurs;
  }

  lemma OneRandom(infos: Infos, random: seq<int>, id: int, i: Info)
    requires RandomOk(infos, random) && id in infos && i.randomPos == infos[id].randomPos
    ensures RandomOk(infos[id := i], random)
  {
  }

  lemma OneInfo(infos: Infos, loose: set<int>, loose': set<int>, idCount: int, id: int, i: Info)
    requires InfosOk(infos, loose, idCount) && id in infos && InfoOk(i, id in loose') && loose' <= infos.Keys
    requires forall x :: x != id ==> (x in loose' <==> x in loose)
    ensures InfosOk(infos[id := i], loose', idCount)
  {
    hide InfoOk;
  }

  lemma KnownInfo(infos: Infos, loose: set<int>, idCount: int, id: int)
    requires InfosOk(infos, loose, idCount) && (id in infos || id in loose)
    ensures id in infos && InfoOk(infos[id], id in loose)
  {
    hide InfoOk;
  }

  lemma LooseKnown(infos: Infos, loose: set<int>, idCount: int)
    requires InfosOk(infos, loose, idCount)
    ensures loose <= infos.Keys
  {
  }

  lemma NewOwner(h: Hasher, infos: Infos, news: map<Slot, int>, s: Slot)
    requires NewOk(h, infos, news) && s in news
    ensures news[s] in infos && !infos[news[s]].inTried
  {
    hide SlotIn;
  }

  lemma TriedOwner(h: Hasher, infos: Infos, tried: map<Slot, int>, s: Slot)
    requires TriedOk(h, infos, tried) && s in tried
    ensures tried[s] in infos && infos[tried[s]].inTried
  {
    hide TriedSlot;
  }

  lemma MovedFace(infos: Infos, infos': Infos)
    requires OnlyMoved(infos, infos')
    ensures SameFace(infos, infos')
  {
  }

  lemma MovedParts(h: Hasher, infos: Infos, infos': Infos, news: map<Slot, int>, loose: set<int>, idCount: int)
    requires OnlyMoved(infos, infos') && RefsOk(h, infos, news) && InfosOk(infos, loose, idCount)
    ensures RefsOk(h, infos', news) && InfosOk(infos', loose, idCount)
  {
    hide Occurs;
  }

  lemma MovedKeeps(h: Hasher, b: Book, infos': Infos, random': seq<int>, loose: set<int>, uncounted: nat)
    requires IndexOk(h, b, loose, uncounted) && OnlyMoved(b.infos, infos')
    ensures IndexOk(h, b.(infos := infos', random := random'), loose, uncounted)
  {
    hide AddrOk, TriedOk, NewOk, RefsOk, InfosOk, OnlyMoved, SameFace, Tried;
    MovedParts(h, b.infos, infos', b.news, loose, b.idCount);
    MovedFace(b.infos, infos');
    FaceKeepsTables(h, b.infos, infos', b.tried, b.news);
    FaceKeepsAddrs(b.infos, infos', b.addrs);
  }

  function Swapped(infos: Infos, random: seq<int>, p: nat, q: nat): (Infos, seq<int>)
    requires p < |random| && q < |random| && random[p] in infos && random[q] in infos
  {
    var id1, id2 := random[p], random[q];
    (infos[id1 := infos[id1].(randomPos := q)][id2 := infos[id2].(randomPos := p)], random[p := id2][q := id1])
  }

  lemma SwapKeeps(infos: Infos, random: seq<int>, p: nat, q: nat)
    requires RandomOk(infos, random) && p < |random| && q < |random| && p != q
    ensures var (infos', random') := Swapped(infos, random, p, q);
            RandomOk(infos', random') && OnlyMoved(infos, infos')
  {
    assert random[p] != random[q];
  }

  /** An entry that is in no table can be taken out of all indexes. */
  function Removed(b: Book, id: int): Book
    requires id in b.infos
  {
    b.(infos := b.infos - {id}, addrs := b.addrs - {b.infos[id].who.net}, nNew := b.nNew - 1)
  }

  lemma RemovedTables(h: Hasher, b: Book, id: int)
    requires AddrOk(b.infos, b.addrs) && TriedOk(h, b.infos, b.tried) && NewOk(h, b.infos, b.news)
    requires id in b.infos && !b.infos[id].inTried && forall s :: s in b.news ==> b.news[s] != id
    ensures var b' := Removed(b, id);
            AddrOk(b'.infos, b'.addrs) && TriedOk(h, b'.infos, b'.tried) && NewOk(h, b'.infos, b'.news)
  {
    var b' := Removed(b, id);
    forall a | a in b'.addrs
      ensures b'.addrs[a] in b'.infos && b'.infos[b'.addrs[a]].who.net == a
    {
      assert b.addrs[a] != id;
    }
  }

  lemma RemovedCounts(b: Book, id: int, uncounted: nat)
    requires CountsOk(b.infos, b.nTried, b.nNew, uncounted) && id in b.infos && !b.infos[id].inTried
    ensures CountsOk(Removed(b, id).infos, b.nTried, b.nNew - 1, uncounted)
  {
    assert Tried(Removed(b, id).infos) == Tried(b.infos);
    assert Removed(b, id).infos.Keys == b.infos.Keys - {id};
  }

  lemma RemovedKeeps(h: Hasher, b: Book, loose: set<int>, uncounted: nat, id: int)
    requires IndexOk(h, b, loose, uncounted) && id in loose
    ensures IndexOk(h, Removed(b, id), loose - {id}, uncounted)
  {
    UnreferencedId(h, b, loose, uncounted, id);
    hide AddrOk, TriedOk, NewOk, RefsOk, CountsOk, Removed;
    assert id in b.infos && InfoOk(b.infos[id], true);
    RemovedTables(h, b, id);
    RemovedRest(h, b, loose, id);
    RemovedCounts(b, id, uncounted);
  }

  lemma RemovedRest(h: Hasher, b: Book, loose: set<int>, id: int)
    requires RefsOk(h, b.infos, b.news) && InfosOk(b.infos, loose, b.idCount) && id in b.infos
    ensures var b' := Removed(b, id);
            && RefsOk(h, b'.infos, b'.news) && InfosOk(b'.infos, loose - {id}, b'.idCount)
            && b'.nTried == b.nTried && b'.nNew == b.nNew - 1
  {
    hide InfoOk, Occurs;
    var b' := Removed(b, id);
    assert loose - {id} <= b'.infos.Keys;
  }

  lemma UnreferencedId(h: Hasher, b: Book, loose: set<int>, uncounted: nat, id: int)
    requires IndexOk(h, b, loose, uncounted) && id in loose
    ensures forall s :: s in b.news ==> b.news[s] != id
    ensures Occurs(h, b.news, id, b.infos[id].who) == {}
  {
    assert |Occurs(h, b.news, id, b.infos[id].who)| == 0;
    forall s | s in b.news
      ensures b.news[s] != id
    {
      assert s.bucket !in Occurs(h, b.news, id, b.infos[id].who);
    }
  }

  lemma PopKeeps(infos: Infos, random: seq<int>, id: int)
    requires RandomOk(infos, random) && id in infos && infos[id].randomPos == |random| - 1
    ensures RandomOk(infos - {id}, random[..|random| - 1])
  {
    assert random[|random| - 1] == id;
  }

  /** vRandom and the back pointers when two positions are exchanged. */
  function SwapRandom(b: Book, p: nat, q: nat): Book
    requires p == q || (p < |b.random| && q < |b.random| && b.random[p] in b.infos && b.random[q] in b.infos)
  {
    if p == q then b
    else
      var (infos, random) := Swapped(b.infos, b.random, p, q);
      b.(infos := infos, random := random)
  }

  lemma SwapRandomKeeps(h: Hasher, b: Book, loose: set<int>, uncounted: nat, p: nat, q: nat)
    requires Ok(h, b, loose, uncounted) && p < |b.random| && q < |b.random|
    ensures b.random[p] in b.infos && b.random[q] in b.infos
    ensures Ok(h, SwapRandom(b, p, q), loose, uncounted) && OnlyMoved(b.infos, SwapRandom(b, p, q).infos)
    ensures |SwapRandom(b, p, q).random| == |b.random| && SwapRandom(b, p, q).random[q] == b.random[p]
    ensures SwapRandom(b, p, q).news == b.news && SwapRandom(b, p, q).tried == b.tried
  {
    if p != q {
      SwapKeeps(b.infos, b.random, p, q);
      var (infos, random) := Swapped(b.infos, b.random, p, q);
      MovedKeeps(h, b, infos, random, loose, uncounted);
    }
  }

  /** The entry can be found in vRandom from its back pointer. */
  predicate Listed(b: Book, id: int) {
    && id in b.infos && 0 <= b.infos[id].randomPos < |b.random| && b.random[b.infos[id].randomPos] == id
    && b.random[|b.random| - 1] in b.infos
  }

  /** An entry in no table is taken out of all indexes. */
  function Delete(b: Book, id: int): Book
    requires Listed(b, id)
  {
    var b1 := SwapRandom(b, b.infos[id].randomPos, |b.random| - 1);
    Removed(b1, id).(random := b1.random[..|b1.random| - 1])
  }

  lemma PoppedKeeps(h: Hasher, b: Book, loose: set<int>, uncounted: nat, id: int)
    requires Ok(h, b, loose, uncounted) && id in loose && b.random != [] && b.random[|b.random| - 1] == id
    ensures id in b.infos && Ok(h, Removed(b, id).(random := b.random[..|b.random| - 1]), loose - {id}, uncounted)
  {
    assert id in b.infos;
    PopKeeps(b.infos, b.random, id);
    RemovedKeeps(h, b, loose, uncounted, id);
  }

  lemma MovedWithout(infos: Infos, infos': Infos, id: int)
    requires OnlyMoved(infos, infos')
    ensures OnlyMoved(infos - {id}, infos' - {id})
  {
    assert (infos - {id}).Keys == infos.Keys - {id} && (infos' - {id}).Keys == infos'.Keys - {id};
  }

  lemma AllListed(h: Hasher, b: Book, loose: set<int>, uncounted: nat, id: int)
    requires Ok(h, b, loose, uncounted) && id in b.infos
    ensures Listed(b, id)
  {}

  lemma LooseIsKnown(h: Hasher, b: Book, loose: set<int>, uncounted: nat)
    requires Ok(h, b, loose, uncounted)
    ensures loose <= b.infos.Keys
  {
    hide AddrOk, TriedOk, NewOk, RefsOk, CountsOk, RandomOk;
  }

  lemma DeleteKeeps(h: Hasher, b: Book, loose: set<int>, uncounted: nat, id: int)
    requires Ok(h, b, loose, uncounted) && id in loose
    ensures Listed(b, id) && Ok(h, Delete(b, id), loose - {id}, uncounted)
    ensures OnlyMoved(b.infos - {id}, Delete(b, id).infos)
    ensures Delete(b, id).news == b.news && Delete(b, id).tried == b.tried && id !in Delete(b, id).infos
  {
    hide Ok, OnlyMoved, SwapRandom;
    LooseIsKnown(h, b, loose, uncounted);
    AllListed(h, b, loose, uncounted, id);
    var p, q := b.infos[id].randomPos, |b.random| - 1;
    SwapRandomKeeps(h, b, loose, uncounted, p, q);
    var b1 := SwapRandom(b, p, q);
    PoppedKeeps(h, b1, loose, uncounted, id);
    MovedWithout(b.infos, b1.infos, id);
  }

  /** Taking an entry out of one slot of the new table. */
  function Unslot(b: Book, s: Slot): Book
    requires s in b.news && b.news[s] in b.infos
  {
    var id := b.news[s];
    b.(infos := b.infos[id := b.infos[id].(refCount := b.infos[id].refCount - 1)], news := b.news - {s})
  }

  lemma UnslotRefs(h: Hasher, b: Book, s: Slot)
    requires NewOk(h, b.infos, b.news) && RefsOk(h, b.infos, b.news) && s in b.news
    ensures b.infos[b.news[s]].refCount > 0
    ensures NewOk(h, Unslot(b, s).infos, Unslot(b, s).news) && RefsOk(h, Unslot(b, s).infos, Unslot(b, s).news)
  {
    var id, b' := b.news[s], Unslot(b, s);
    var who := b.infos[id].who;
    OccursRemove(h, b.news, s, who, id, who);
    FaceKeepsTables(h, b.infos, b'.infos, b.tried, b.news);
    forall other | other in b'.infos
      ensures b'.infos[other].refCount == |Occurs(h, b'.news, other, b'.infos[other].who)|
    {
      OccursRemove(h, b.news, s, who, other, b'.infos[other].who);
    }
  }

  lemma UnslotKeeps(h: Hasher, b: Book, loose: set<int>, uncounted: nat, s: Slot)
    requires IndexOk(h, b, loose, uncounted) && s in b.news
    ensures b.news[s] in b.infos && b.news[s] !in loose && b.infos[b.news[s]].refCount > 0
    ensures var id := b.news[s];
            IndexOk(h, Unslot(b, s), if b.infos[id].refCount == 1 then loose + {id} else loose, uncounted)
  {
    hide AddrOk, TriedOk, NewOk, RefsOk, InfosOk, SameFace, Tried;
    NewOwner(h, b.infos, b.news, s);
    var id := b.news[s];
    KnownInfo(b.infos, loose, b.idCount, id);
    UnslotRefs(h, b, s);
    var i := b.infos[id].(refCount := b.infos[id].refCount - 1);
    var loose' := if b.infos[id].refCount == 1 then loose + {id} else loose;
    assert InfoOk(i, id in loose') && b.infos[id].refCount > 0 && id !in loose;
    LooseKnown(b.infos, loose, b.idCount);
    OneInfo(b.infos, loose, loose', b.idCount, id, i);
    OneFace(b.infos, id, i);
    FaceKeepsTables(h, b.infos, b.infos[id := i], b.tried, b.news);
    FaceKeepsAddrs(b.infos, b.infos[id := i], b.addrs);
  }

  /** Putting an entry into an empty slot of the new table that fits it. */
  function Enslot(b: Book, s: Slot, id: int): Book
    requires id in b.infos
  {
    b.(infos := b.infos[id := b.infos[id].(refCount := b.infos[id].refCount + 1)], news := b.news[s := id])
  }

  lemma EnslotNew(h: Hasher, b: Book, s: Slot, id: int)
    requires NewOk(h, b.infos, b.news) && id in b.infos && !b.infos[id].inTried
    requires s.bucket < NEW_BUCKET_COUNT && s == SlotIn(h, s.bucket, b.infos[id].who)
    ensures NewOk(h, Enslot(b, s, id).infos, Enslot(b, s, id).news)
  {
    hide TriedOk, SlotIn;
    FaceKeepsTables(h, b.infos, Enslot(b, s, id).infos, b.tried, b.news);
  }

  lemma EnslotRefs(h: Hasher, b: Book, s: Slot, id: int)
    requires NewOk(h, b.infos, b.news) && RefsOk(h, b.infos, b.news)
    requires s !in b.news && id in b.infos && !b.infos[id].inTried
    requires s.bucket < NEW_BUCKET_COUNT && s == SlotIn(h, s.bucket, b.infos[id].who)
    ensures NewOk(h, Enslot(b, s, id).infos, Enslot(b, s, id).news)
            && RefsOk(h, Enslot(b, s, id).infos, Enslot(b, s, id).news)
  {
    hide NewOk, Occurs;
    EnslotNew(h, b, s, id);
    var b' := Enslot(b, s, id);
    var who := b.infos[id].who;
    forall other | other in b'.infos
      ensures b'.infos[other].refCount == |Occurs(h, b'.news, other, b'.infos[other].who)|
    {
      OccursInsert(h, b.news, s, id, who, other, b'.infos[other].who);
    }
  }

  /** An entry that is loose or has room for one more reference. */
  lemma EnslotKeeps(h: Hasher, b: Book, loose: set<int>, uncounted: nat, s: Slot, id: int)
    requires IndexOk(h, b, loose, uncounted)
    requires s !in b.news && id in b.infos && !b.infos[id].inTried && b.infos[id].refCount < NEW_BUCKETS_PER_ADDRESS
    requires s.bucket < NEW_BUCKET_COUNT && s == SlotIn(h, s.bucket, b.infos[id].who)
    ensures IndexOk(h, Enslot(b, s, id), loose - {id}, uncounted)
  {
    hide AddrOk, TriedOk, NewOk, RefsOk, InfosOk, SameFace, Tried, SlotIn;
    KnownInfo(b.infos, loose, b.idCount, id);
    LooseKnown(b.infos, loose, b.idCount);
    EnslotRefs(h, b, s, id);
    var i := b.infos[id].(refCount := b.infos[id].refCount + 1);
    assert InfoOk(i, false);
    OneInfo(b.infos, loose, loose - {id}, b.idCount, id, i);
    OneFace(b.infos, id, i);
    FaceKeepsTables(h, b.infos, b.infos[id := i], b.tried, b.news);
    FaceKeepsAddrs(b.infos, b.infos[id := i], b.addrs);
  }

  /** A change that leaves an entry's place in all indexes alone. */
  lemma TouchKeeps(h: Hasher, b: Book, loose: set<int>, uncounted: nat, id: int, i: Info)
    requires Ok(h, b, loose, uncounted) && id in b.infos && InfoOk(i, id in loose)
    requires i.who == b.infos[id].who && i.inTried == b.infos[id].inTried
    requires i.refCount == b.infos[id].refCount && i.randomPos == b.infos[id].randomPos
    ensures Ok(h, b.(infos := b.infos[id := i]), loose, uncounted)
  {
    hide AddrOk, TriedOk, NewOk, RefsOk, InfosOk, RandomOk, SameFace, Tried;
    LooseKnown(b.infos, loose, b.idCount);
    OneInfo(b.infos, loose, loose, b.idCount, id, i);
    OneRefs(h, b.infos, b.news, id, i);
    OneRandom(b.infos, b.random, id, i);
    OneFace(b.infos, id, i);
    FaceKeepsTables(h, b.infos, b.infos[id := i], b.tried, b.news);
    FaceKeepsAddrs(b.infos, b.infos[id := i], b.addrs);
  }

  /** A new entry, in no table yet, at the end of vRandom. */
  function Added(b: Book, i: Info): Book {
    var id := b.idCount;
    b.(infos := b.infos[id := i], addrs := b.addrs[i.who.net := id], random := b.random + [id], idCount := id + 1,
      nNew := b.nNew + 1)
  }

  lemma AddedTables(h: Hasher, b: Book, i: Info)
    requires AddrOk(b.infos, b.addrs) && TriedOk(h, b.infos, b.tried) && NewOk(h, b.infos, b.news)
    requires b.idCount !in b.infos && i.who.net !in b.addrs && !i.inTried
    ensures var b' := Added(b, i);
            AddrOk(b'.infos, b'.addrs) && TriedOk(h, b'.infos, b'.tried) && NewOk(h, b'.infos, b'.news)
  {}

  lemma AddedRefs(h: Hasher, b: Book, i: Info)
    requires NewOk(h, b.infos, b.news) && RefsOk(h, b.infos, b.news)
    requires b.idCount !in b.infos && i.refCount == 0
    ensures RefsOk(h, Added(b, i).infos, b.news)
  {
    assert forall s :: s in b.news ==> b.news[s] in b.infos;
    assert Occurs(h, b.news, b.idCount, i.who) == {};
  }

  lemma AddedCounts(b: Book, i: Info, uncounted: nat)
    requires CountsOk(b.infos, b.nTried, b.nNew, uncounted) && b.idCount !in b.infos && !i.inTried
    ensures CountsOk(Added(b, i).infos, b.nTried, b.nNew + 1, uncounted)
  {
    assert Tried(Added(b, i).infos) == Tried(b.infos);
    assert Added(b, i).infos.Keys == b.infos.Keys + {b.idCount};
  }

  lemma AddedInfos(b: Book, loose: set<int>, i: Info)
    requires InfosOk(b.infos, loose, b.idCount) && InfoOk(i, true)
    ensures b.idCount !in b.infos && InfosOk(Added(b, i).infos, loose + {b.idCount}, b.idCount + 1)
  {
    hide InfoOk;
  }

  lemma AddedRandom(b: Book, i: Info)
    requires RandomOk(b.infos, b.random) && b.idCount !in b.infos && i.randomPos == |b.random|
    ensures RandomOk(Added(b, i).infos, Added(b, i).random)
  {
  }

  lemma AddedKeeps(h: Hasher, b: Book, loose: set<int>, uncounted: nat, i: Info)
    requires Ok(h, b, loose, uncounted) && i.who.net !in b.addrs
    requires InfoOk(i, true) && i.randomPos == |b.random|
    ensures b.idCount !in b.infos && Ok(h, Added(b, i), loose + {b.idCount}, uncounted)
  {
    hide AddrOk, TriedOk, NewOk, RefsOk, CountsOk;
    AddedInfos(b, loose, i);
    AddedRandom(b, i);
    hide InfosOk, RandomOk;
    AddedTables(h, b, i);
    AddedRefs(h, b, i);
    AddedCounts(b, i, uncounted);
  }

  /** The entry in a slot of the tried table leaves it, and is in no table then. */
  function Demoted(b: Book, s: Slot): Book
    requires s in b.tried && b.tried[s] in b.infos
  {
    var id := b.tried[s];
    b.(infos := b.infos[id := b.infos[id].(inTried := false)], tried := b.tried - {s}, nTried := b.nTried - 1)
  }

  lemma DemotedTables(h: Hasher, b: Book, s: Slot)
    requires AddrOk(b.infos, b.addrs) && TriedOk(h, b.infos, b.tried) && NewOk(h, b.infos, b.news) && s in b.tried
    ensures var b' := Demoted(b, s);
            AddrOk(b'.infos, b'.addrs) && TriedOk(h, b'.infos, b'.tried) && NewOk(h, b'.infos, b'.news)
  {
    var id, b' := b.tried[s], Demoted(b, s);
    forall t | t in b'.tried
      ensures b'.tried[t] in b'.infos && b'.infos[b'.tried[t]].inTried && TriedSlot(h, b'.infos[b'.tried[t]].who) == t
    {
      assert b.tried[t] != id;
    }
    forall t | t in b'.news
      ensures b'.news[t] in b'.infos && !b'.infos[b'.news[t]].inTried
              && t == SlotIn(h, t.bucket, b'.infos[b'.news[t]].who)
    {
      assert b.news[t] != id;
    }
  }

  lemma DemotedCounts(b: Book, s: Slot, uncounted: nat)
    requires CountsOk(b.infos, b.nTried, b.nNew, uncounted)
    requires s in b.tried && b.tried[s] in b.infos && b.infos[b.tried[s]].inTried
    ensures CountsOk(Demoted(b, s).infos, b.nTried - 1, b.nNew, uncounted + 1)
  {
    var id := b.tried[s];
    assert Tried(Demoted(b, s).infos) == Tried(b.infos) - {id};
    assert id in Tried(b.infos);
    assert Demoted(b, s).infos.Keys == b.infos.Keys;
  }

  lemma DemotedKeeps(h: Hasher, b: Book, loose: set<int>, uncounted: nat, s: Slot)
    requires Ok(h, b, loose, uncounted) && s in b.tried
    ensures b.tried[s] in b.infos && b.tried[s] !in loose
    ensures Ok(h, Demoted(b, s), loose + {b.tried[s]}, uncounted + 1)
  {
    hide AddrOk, TriedOk, NewOk, RefsOk, CountsOk, InfosOk, RandomOk;
    TriedOwner(h, b.infos, b.tried, s);
    var id := b.tried[s];
    KnownInfo(b.infos, loose, b.idCount, id);
    LooseKnown(b.infos, loose, b.idCount);
    var i := b.infos[id].(inTried := false);
    OneInfo(b.infos, loose, loose + {id}, b.idCount, id, i);
    OneRefs(h, b.infos, b.news, id, i);
    OneRandom(b.infos, b.random, id, i);
    DemotedTables(h, b, s);
    DemotedCounts(b, s, uncounted);
  }

  /** A loose entry moves to its slot in the tried table. */
  function Promoted(h: Hasher, b: Book, id: int): Book
    requires id in b.infos
  {
    b.(infos := b.infos[id := b.infos[id].(inTried := true)], tried := b.tried[TriedSlot(h, b.infos[id].who) := id],
      nTried := b.nTried + 1)
  }

  lemma PromotedTables(h: Hasher, b: Book, id: int)
    requires AddrOk(b.infos, b.addrs) && TriedOk(h, b.infos, b.tried) && NewOk(h, b.infos, b.news)
    requires id in b.infos && TriedSlot(h, b.infos[id].who) !in b.tried && forall s :: s in b.news ==> b.news[s] != id
    ensures var b' := Promoted(h, b, id);
            AddrOk(b'.infos, b'.addrs) && TriedOk(h, b'.infos, b'.tried) && NewOk(h, b'.infos, b'.news)
  {}

  lemma PromotedCounts(h: Hasher, b: Book, id: int, uncounted: nat)
    requires CountsOk(b.infos, b.nTried, b.nNew, uncounted) && uncounted > 0
    requires id in b.infos && !b.infos[id].inTried
    ensures CountsOk(Promoted(h, b, id).infos, b.nTried + 1, b.nNew, uncounted - 1)
  {
    assert Tried(Promoted(h, b, id).infos) == Tried(b.infos) + {id};
    assert Promoted(h, b, id).infos.Keys == b.infos.Keys;
  }

  lemma PromotedKeeps(h: Hasher, b: Book, loose: set<int>, uncounted: nat, id: int)
    requires Ok(h, b, loose, uncounted) && uncounted > 0
    requires id in loose && b.infos[id].lastSuccess != 0 && TriedSlot(h, b.infos[id].who) !in b.tried
    ensures Ok(h, Promoted(h, b, id), loose - {id}, uncounted - 1)
  {
    hide AddrOk, TriedOk, NewOk, RefsOk, CountsOk, InfosOk, RandomOk, TriedSlot, Occurs;
    UnreferencedId(h, b, loose, uncounted, id);
    KnownInfo(b.infos, loose, b.idCount, id);
    LooseKnown(b.infos, loose, b.idCount);
    var i := b.infos[id].(inTried := true);
    OneInfo(b.infos, loose, loose - {id}, b.idCount, id, i);
    OneRefs(h, b.infos, b.news, id, i);
    OneRandom(b.infos, b.random, id, i);
    PromotedTables(h, b, id);
    PromotedCounts(h, b, id, uncounted);
  }

  /** Clear a slot of the new table; an entry that loses its last slot is deleted. */
  function ClearNew(b: Book, s: Slot): Book
    requires s in b.news ==> Listed(b, b.news[s])
  {
    if s !in b.news then b
    else
      var b1 := Unslot(b, s);
      if b1.infos[b.news[s]].refCount == 0 then Delete(b1, b.news[s]) else b1
  }

  /** The entries of `kept` differ from before in back pointers only. */
  predicate Untouched(kept: set<int>, infos: Infos, infos': Infos) {
    forall id {:trigger id in kept} :: id in kept ==>
      id in infos && id in infos' && infos'[id] == infos[id].(randomPos := infos'[id].randomPos)
  }

  /** An entry has one reference less, and is gone if that was its last. */
  predicate LosesOne(infos: Infos, infos': Infos, id: int) {
    && id in infos && (id in infos' <==> infos[id].refCount != 1)
    && (id in infos' ==> infos'[id] == infos[id].(refCount := infos[id].refCount - 1))
  }

  lemma MovedRest(infos: Infos, id: int, i: Info, infos': Infos)
    requires OnlyMoved(infos[id := i] - {id}, infos')
    ensures Untouched(infos.Keys - {id}, infos, infos') && infos'.Keys == infos.Keys - {id}
  {
    assert (infos[id := i] - {id}).Keys == infos.Keys - {id};
    forall k | k in infos.Keys - {id}
      ensures k in infos' && infos'[k] == infos[k].(randomPos := infos'[k].randomPos)
    {
      assert k in infos[id := i] - {id};
    }
  }

  lemma ClearNewKeeps(h: Hasher, b: Book, loose: set<int>, uncounted: nat, s: Slot)
    requires Ok(h, b, loose, uncounted)
    ensures s in b.news ==> Listed(b, b.news[s])
    ensures Ok(h, ClearNew(b, s), loose, uncounted) && ClearNew(b, s).news == b.news - {s}
    ensures Untouched(if s in b.news then b.infos.Keys - {b.news[s]} else b.infos.Keys, b.infos, ClearNew(b, s).infos)
    ensures loose <= if s in b.news then b.infos.Keys - {b.news[s]} else b.infos.Keys
    ensures s in b.news ==> LosesOne(b.infos, ClearNew(b, s).infos, b.news[s])
    ensures ClearNew(b, s).tried == b.tried && ClearNew(b, s).infos.Keys <= b.infos.Keys
  {
    hide Ok, Delete, OnlyMoved;
    LooseIsKnown(h, b, loose, uncounted);
    if s in b.news {
      UnslotOk(h, b, loose, uncounted, s);
      var id, b1 := b.news[s], Unslot(b, s);
      AllListed(h, b, loose, uncounted, id);
      if b1.infos[id].refCount == 0 {
        DeleteKeeps(h, b1, loose + {id}, uncounted, id);
        assert loose + {id} - {id} == loose;
        MovedRest(b.infos, id, b1.infos[id], ClearNew(b, s).infos);
      }
    }
  }

  lemma UnslotOk(h: Hasher, b: Book, loose: set<int>, uncounted: nat, s: Slot)
    requires Ok(h, b, loose, uncounted) && s in b.news
    ensures b.news[s] in b.infos && b.news[s] !in loose && b.infos[b.news[s]].refCount > 0
    ensures var id := b.news[s];
            Ok(h, Unslot(b, s), if b.infos[id].refCount == 1 then loose + {id} else loose, uncounted)
  {
    hide IndexOk, RandomOk;
    UnslotKeeps(h, b, loose, uncounted, s);
    UnslotRandom(b, s);
  }

  lemma UnslotRandom(b: Book, s: Slot)
    requires RandomOk(b.infos, b.random) && s in b.news && b.news[s] in b.infos
    ensures RandomOk(Unslot(b, s).infos, b.random)
  {}

  // ---------------------------------------------------------------- moving an entry to the tried table

  function Others(news: map<Slot, int>, id: int): map<Slot, int> { map s | s in news && news[s] != id :: news[s] }

  /** An entry leaves every slot of the new table, and is not counted as new any more. */
  function Detached(b: Book, id: int): Book
    requires id in b.infos
  {
    b.(infos := b.infos[id := b.infos[id].(refCount := 0)], news := Others(b.news, id), nNew := b.nNew - 1)
  }

  /** The new table after the first `n` buckets were cleared of an entry. */
  function Without(news: map<Slot, int>, id: int, n: nat): map<Slot, int> {
    map s | s in news && !(news[s] == id && s.bucket < n) :: news[s]
  }

  lemma WithoutNext(h: Hasher, infos: Infos, news: map<Slot, int>, id: int, n: nat)
    requires NewOk(h, infos, news) && id in infos && n < NEW_BUCKET_COUNT
    ensures var s, cur := SlotIn(h, n, infos[id].who), Without(news, id, n);
            if s in cur && cur[s] == id then
              && Without(news, id, n + 1) == cur - {s}
              && |Occurs(h, cur - {s}, id, infos[id].who)| == |Occurs(h, cur, id, infos[id].who)| - 1
            else Without(news, id, n + 1) == cur
  {
    var who := infos[id].who;
    var s, cur, next := SlotIn(h, n, who), Without(news, id, n), Without(news, id, n + 1);
    if s in cur && cur[s] == id {
      assert next == cur - {s};
      OccursRemove(h, cur, s, who, id, who);
    } else {
      assert next == cur;
    }
  }

  lemma WithoutEnds(h: Hasher, infos: Infos, news: map<Slot, int>, id: int)
    requires NewOk(h, infos, news) && id in infos
    ensures Without(news, id, 0) == news
    ensures Without(news, id, NEW_BUCKET_COUNT) == Others(news, id)
    ensures Occurs(h, Others(news, id), id, infos[id].who) == {}
  {
  }

  lemma SlotsFit(h: Hasher, b: Book, loose: set<int>, uncounted: nat)
    requires Ok(h, b, loose, uncounted)
    ensures NewOk(h, b.infos, b.news)
    ensures forall id :: id in b.infos ==> b.infos[id].refCount == |Occurs(h, b.news, id, b.infos[id].who)|
  {
    hide AddrOk, TriedOk, CountsOk, RandomOk, InfosOk, NewOk;
  }

  lemma DetachedRefs(h: Hasher, b: Book, id: int)
    requires NewOk(h, b.infos, b.news) && RefsOk(h, b.infos, b.news) && id in b.infos
    ensures NewOk(h, Detached(b, id).infos, Detached(b, id).news)
            && RefsOk(h, Detached(b, id).infos, Detached(b, id).news)
  {
    var b' := Detached(b, id);
    FaceKeepsTables(h, b.infos, b'.infos, b.tried, b.news);
    forall other | other in b'.infos
      ensures b'.infos[other].refCount == |Occurs(h, b'.news, other, b'.infos[other].who)|
    {
      var whose := b.infos[other].who;
      if other == id {
        assert Occurs(h, b'.news, id, whose) == {};
      } else {
        assert Occurs(h, b'.news, other, whose) == Occurs(h, b.news, other, whose);
      }
    }
  }

  lemma DetachedIndex(h: Hasher, b: Book, id: int)
    requires IndexOk(h, b, {}, 0) && id in b.infos && !b.infos[id].inTried
    ensures IndexOk(h, Detached(b, id), {id}, 1)
  {
    hide AddrOk, TriedOk, NewOk, RefsOk, InfosOk, SameFace, Tried, Others;
    KnownInfo(b.infos, {}, b.idCount, id);
    DetachedRefs(h, b, id);
    var i := b.infos[id].(refCount := 0);
    assert InfoOk(i, true);
    OneInfo(b.infos, {}, {id}, b.idCount, id, i);
    OneFace(b.infos, id, i);
    FaceKeepsTables(h, b.infos, b.infos[id := i], b.tried, b.news);
    FaceKeepsAddrs(b.infos, b.infos[id := i], b.addrs);
  }

  lemma DetachedKeeps(h: Hasher, b: Book, id: int)
    requires Ok(h, b, {}, 0) && id in b.infos && !b.infos[id].inTried
    ensures Ok(h, Detached(b, id), {id}, 1)
  {
    hide IndexOk;
    DetachedIndex(h, b, id);
  }

  /** A loose, uncounted entry is put into an empty slot of the new table and counted. */
  function Returned(b: Book, s: Slot, id: int): Book
    requires id in b.infos
  {
    b.(infos := b.infos[id := b.infos[id].(refCount := 1)], news := b.news[s := id], nNew := b.nNew + 1)
  }

  lemma EnslotOk(h: Hasher, b: Book, loose: set<int>, uncounted: nat, s: Slot, id: int)
    requires Ok(h, b, loose, uncounted)
    requires s !in b.news && id in b.infos && !b.infos[id].inTried && b.infos[id].refCount < NEW_BUCKETS_PER_ADDRESS
    requires s.bucket < NEW_BUCKET_COUNT && s == SlotIn(h, s.bucket, b.infos[id].who)
    ensures Ok(h, Enslot(b, s, id), loose - {id}, uncounted)
  {
    hide IndexOk;
    EnslotKeeps(h, b, loose, uncounted, s, id);
  }

  lemma CountOne(h: Hasher, b: Book, loose: set<int>, uncounted: nat)
    requires Ok(h, b, loose, uncounted) && uncounted > 0
    ensures Ok(h, b.(nNew := b.nNew + 1), loose, uncounted - 1)
  {
    hide AddrOk, TriedOk, NewOk, RefsOk, InfosOk, RandomOk;
  }

  lemma LooseInfo(h: Hasher, b: Book, loose: set<int>, uncounted: nat, id: int)
    requires Ok(h, b, loose, uncounted) && id in b.infos
    ensures InfoOk(b.infos[id], id in loose)
  {
    hide AddrOk, TriedOk, NewOk, RefsOk, CountsOk, RandomOk, InfoOk;
  }

  lemma ReturnedKeeps(h: Hasher, b: Book, loose: set<int>, uncounted: nat, s: Slot, id: int)
    requires Ok(h, b, loose, uncounted) && uncounted > 0 && id in b.infos && id in loose
    requires s !in b.news && s.bucket < NEW_BUCKET_COUNT && s == SlotIn(h, s.bucket, b.infos[id].who)
    ensures Ok(h, Returned(b, s, id), loose - {id}, uncounted - 1)
  {
    hide Ok;
    LooseInfo(h, b, loose, uncounted, id);
    EnslotOk(h, b, loose, uncounted, s, id);
    CountOne(h, Enslot(b, s, id), loose - {id}, uncounted);
  }

  /** The entry in a slot of the tried table moves to the new table, displacing what it finds there. */
  function Evicted(h: Hasher, b: Book, t: Slot): Book
    requires t in b.tried && b.tried[t] in b.infos
    requires var y := b.tried[t];
             var s := NewSlot(h, b.infos[y].who, b.infos[y].source);
             (s in b.news ==> Listed(Demoted(b, t), b.news[s])) && y in ClearNew(Demoted(b, t), s).infos
  {
    var y := b.tried[t];
    var s := NewSlot(h, b.infos[y].who, b.infos[y].source);
    Returned(ClearNew(Demoted(b, t), s), s, y)
  }

  /** The slots are there and everything else is as it was, but for the evicted entry, now new with
      one reference, and the entry it displaces. */
  ghost predicate EvictedOnly(h: Hasher, b: Book, t: Slot, b': Book)
    requires t in b.tried && b.tried[t] in b.infos
  {
    var y := b.tried[t];
    var s := NewSlot(h, b.infos[y].who, b.infos[y].source);
    && y in b'.infos && b'.infos[y] == b.infos[y].(inTried := false, refCount := 1, randomPos := b'.infos[y].randomPos)
    && b'.tried == b.tried - {t} && b'.news == b.news[s := y] && b'.infos.Keys <= b.infos.Keys
    && (s in b.news ==> LosesOne(b.infos, b'.infos, b.news[s]) && b.news[s] != y)
    && Untouched(b.infos.Keys - {y} - (if s in b.news then {b.news[s]} else {}), b.infos, b'.infos)
  }

  lemma TriedNotNew(h: Hasher, b: Book, loose: set<int>, uncounted: nat, t: Slot, s: Slot)
    requires Ok(h, b, loose, uncounted) && t in b.tried && s in b.news
    ensures b.tried[t] in b.infos && b.news[s] in b.infos && b.tried[t] != b.news[s]
  {
    hide AddrOk, RefsOk, CountsOk, RandomOk, InfosOk;
  }

  lemma KeptStays(loose: set<int>, b1: Book, b2: Book, s: Slot, y: int)
    requires y in loose && loose <= if s in b1.news then b1.infos.Keys - {b1.news[s]} else b1.infos.Keys
    requires Untouched(if s in b1.news then b1.infos.Keys - {b1.news[s]} else b1.infos.Keys, b1.infos, b2.infos)
    ensures y in b1.infos && y in b2.infos && b2.infos[y] == b1.infos[y].(randomPos := b2.infos[y].randomPos)
  {
  }

  lemma EvictedEffect(h: Hasher, b: Book, t: Slot, b2: Book)
    requires t in b.tried && b.tried[t] in b.infos
    requires var y := b.tried[t];
             var s := NewSlot(h, b.infos[y].who, b.infos[y].source);
             var b1 := Demoted(b, t);
             && b2.tried == b1.tried && b2.news == b1.news - {s} && b2.infos.Keys <= b1.infos.Keys
             && (s in b.news ==> b.news[s] != y && LosesOne(b1.infos, b2.infos, b.news[s]))
             && Untouched(if s in b.news then b1.infos.Keys - {b.news[s]} else b1.infos.Keys, b1.infos, b2.infos)
    ensures b.tried[t] in b2.infos
    ensures EvictedOnly(h, b, t,
            Returned(b2, NewSlot(h, b.infos[b.tried[t]].who, b.infos[b.tried[t]].source), b.tried[t]))
  {
    hide NewSlot;
    var y := b.tried[t];
    var s := NewSlot(h, b.infos[y].who, b.infos[y].source);
    var b1 := Demoted(b, t);
    assert b1.infos.Keys == b.infos.Keys;
    var kept := if s in b.news then b1.infos.Keys - {b.news[s]} else b1.infos.Keys;
    assert y in kept;
    var b' := Returned(b2, s, y);
    assert b.news - {s} == b2.news && b'.news == b.news[s := y];
    forall k | k in kept && k != y
      ensures k in b.infos && k in b'.infos && b'.infos[k] == b.infos[k].(randomPos := b'.infos[k].randomPos)
    {
      assert b1.infos[k] == b.infos[k];
    }
  }

  lemma EvictedKeeps(h: Hasher, b: Book, loose: set<int>, uncounted: nat, t: Slot)
    requires Ok(h, b, loose, uncounted) && t in b.tried
    ensures b.tried[t] in b.infos && b.tried[t] !in loose
    ensures var y := b.tried[t];
            var s := NewSlot(h, b.infos[y].who, b.infos[y].source);
            (s in b.news ==> Listed(Demoted(b, t), b.news[s])) && y in ClearNew(Demoted(b, t), s).infos
    ensures Ok(h, Evicted(h, b, t), loose, uncounted)
    ensures EvictedOnly(h, b, t, Evicted(h, b, t))
  {
    hide Ok, ClearNew, InfoOk, Untouched, LosesOne, EvictedOnly;
    DemotedKeeps(h, b, loose, uncounted, t);
    var y, b1 := b.tried[t], Demoted(b, t);
    var s := NewSlot(h, b.infos[y].who, b.infos[y].source);
    ClearNewKeeps(h, b1, loose + {y}, uncounted + 1, s);
    var b2 := ClearNew(b1, s);
    assert y in b2.infos && b2.infos[y].who == b1.infos[y].who by {
      KeptStays(loose + {y}, b1, b2, s, y);
    }
    ReturnedKeeps(h, b2, loose + {y}, uncounted + 1, s, y);
    assert loose + {y} - {y} == loose;
    if s in b.news {
      TriedNotNew(h, b, loose, uncounted, t, s);
    }
    EvictedEffect(h, b, t, b2);
  }

  /** Entry `id` is tried now, in the slot its address demands.  Whatever was in that slot is new,
      with one reference in the slot for its own source, and what it found there lost a reference. */
  ghost predicate MovedToTried(h: Hasher, b: Book, id: int, b': Book)
    requires id in b.infos
  {
    var t, d := TriedSlot(h, b.infos[id].who), Detached(b, id);
    && id in b'.infos
    && b'.infos[id] == b.infos[id].(inTried := true, refCount := 0, randomPos := b'.infos[id].randomPos)
    && b'.tried == b.tried[t := id] && b'.infos.Keys <= b.infos.Keys
    && (t !in b.tried ==> b'.news == Others(b.news, id) && Untouched(b.infos.Keys - {id}, b.infos, b'.infos))
    && (t in b.tried ==>
          && b.tried[t] in b.infos && b.tried[t] != id
          && EvictedOnly(h, d, t,
             b'.(infos := b'.infos[id := d.infos[id].(randomPos := b'.infos[id].randomPos)], tried := b.tried - {t})))
  }

  lemma NoSlotsLeft(h: Hasher, b: Book, id: int)
    requires Ok(h, b, {}, 0) && id in b.infos && !b.infos[id].inTried
    ensures forall t :: t in b.tried ==> b.tried[t] in b.infos && b.tried[t] != id
    ensures forall s :: s in b.news ==> b.news[s] in b.infos
  {
    hide AddrOk, RefsOk, CountsOk, RandomOk, InfosOk;
  }

  lemma KnownSlots(h: Hasher, b: Book, loose: set<int>, uncounted: nat)
    requires Ok(h, b, loose, uncounted)
    ensures forall t :: t in b.tried ==> b.tried[t] in b.infos
    ensures forall s :: s in b.news ==> b.news[s] in b.infos
  {
    hide AddrOk, RefsOk, CountsOk, RandomOk, InfosOk;
  }

  /** The last step of MakeTried when no entry was in the way ... */
  lemma TriedAlone(h: Hasher, b: Book, id: int)
    requires Ok(h, b, {}, 0) && id in b.infos && !b.infos[id].inTried && b.infos[id].lastSuccess != 0
    requires TriedSlot(h, b.infos[id].who) !in b.tried
    ensures Ok(h, Promoted(h, Detached(b, id), id), {}, 0)
    ensures MovedToTried(h, b, id, Promoted(h, Detached(b, id), id))
  {
    hide Ok, TriedSlot;
    DetachedKeeps(h, b, id);
    PromotedKeeps(h, Detached(b, id), {id}, 1, id);
    assert {id} - {id} == {};
  }

  lemma TriedAfterEffect(h: Hasher, b: Book, id: int, b2: Book)
    requires id in b.infos && !b.infos[id].inTried
    requires var t := TriedSlot(h, b.infos[id].who);
             t in b.tried && b.tried[t] in b.infos && b.tried[t] != id && EvictedOnly(h, Detached(b, id), t, b2)
    ensures id in b2.infos && b2.infos[id] == b.infos[id].(refCount := 0, randomPos := b2.infos[id].randomPos)
    ensures MovedToTried(h, b, id, Promoted(h, b2, id))
  {
    hide TriedSlot, NewSlot;
    var t, d := TriedSlot(h, b.infos[id].who), Detached(b, id);
    var y := d.tried[t];
    var s := NewSlot(h, d.infos[y].who, d.infos[y].source);
    assert s in d.news ==> d.news[s] != id;
    assert id in d.infos.Keys - {y} - (if s in d.news then {d.news[s]} else {});
    var b' := Promoted(h, b2, id);
    var back := b'.(infos := b'.infos[id := d.infos[id].(randomPos := b'.infos[id].randomPos)], tried := b.tried - {t});
    assert back.infos == b2.infos;
    assert b.tried - {t} == b2.tried && b'.tried == b.tried[t := id];
  }

  /** ... and when one was evicted first. */
  lemma TriedAfter(h: Hasher, b: Book, id: int, b2: Book)
    requires id in b.infos && !b.infos[id].inTried && b.infos[id].lastSuccess != 0
    requires var t := TriedSlot(h, b.infos[id].who);
             t in b.tried && b.tried[t] in b.infos && b.tried[t] != id && EvictedOnly(h, Detached(b, id), t, b2)
    requires Ok(h, b2, {id}, 1)
    ensures id in b2.infos && b2.infos[id].who == b.infos[id].who && Ok(h, Promoted(h, b2, id), {}, 0)
    ensures MovedToTried(h, b, id, Promoted(h, b2, id))
  {
    hide Ok, TriedSlot, Promoted, MovedToTried;
    TriedAfterEffect(h, b, id, b2);
    PromotedKeeps(h, b2, {id}, 1, id);
    assert {id} - {id} == {};
  }

  // ---------------------------------------------------------------- placing an entry in the new table

  /** Whether entry `id` may take slot `s`: it is empty, or its owner is worthless, or can spare it
      while `id` has no slot at all. */
  predicate MayTake(b: Book, s: Slot, id: int, now: int)
    requires id in b.infos && (s in b.news ==> b.news[s] in b.infos)
  {
    s in b.news ==>
      IsTerrible(b.infos[b.news[s]], now) || (b.infos[b.news[s]].refCount > 1 && b.infos[id].refCount == 0)
  }

  /** `id` has slot `s` in addition; its former owner, if any, lost a reference; all else is as before. */
  ghost predicate PlacedOnly(b: Book, s: Slot, id: int, b': Book)
    requires id in b.infos
  {
    && id in b'.infos
    && b'.infos[id] == b.infos[id].(refCount := b.infos[id].refCount + 1, randomPos := b'.infos[id].randomPos)
    && b'.tried == b.tried && b'.news == b.news[s := id] && b'.infos.Keys <= b.infos.Keys
    && (s in b.news ==> LosesOne(b.infos, b'.infos, b.news[s]))
    && Untouched(b.infos.Keys - {id} - (if s in b.news then {b.news[s]} else {}), b.infos, b'.infos)
  }

  lemma PlacedEffect(b: Book, s: Slot, id: int, b1: Book)
    requires id in b.infos && (s in b.news ==> b.news[s] != id)
    requires b1.tried == b.tried && b1.news == b.news - {s} && b1.infos.Keys <= b.infos.Keys
    requires s in b.news ==> LosesOne(b.infos, b1.infos, b.news[s])
    requires Untouched(if s in b.news then b.infos.Keys - {b.news[s]} else b.infos.Keys, b.infos, b1.infos)
    ensures id in b1.infos && b1.infos[id] == b.infos[id].(randomPos := b1.infos[id].randomPos)
    ensures PlacedOnly(b, s, id, Enslot(b1, s, id))
  {
    var kept := if s in b.news then b.infos.Keys - {b.news[s]} else b.infos.Keys;
    assert id in kept;
    var b' := Enslot(b1, s, id);
    forall k | k in kept && k != id
      ensures k in b'.infos && b'.infos[k] == b.infos[k].(randomPos := b'.infos[k].randomPos)
    {
      assert k in b1.infos;
    }
    assert b.news - {s} == b1.news && Enslot(b1, s, id).news == b.news[s := id];
  }

  lemma PlacedKeeps(h: Hasher, b: Book, loose: set<int>, s: Slot, id: int)
    requires Ok(h, b, loose, 0) && id in b.infos && !b.infos[id].inTried
             && b.infos[id].refCount < NEW_BUCKETS_PER_ADDRESS
    requires s.bucket < NEW_BUCKET_COUNT && s == SlotIn(h, s.bucket, b.infos[id].who)
    requires (s in b.news ==> b.news[s] != id) && loose <= {id}
    ensures s in b.news ==> Listed(b, b.news[s])
    ensures id in ClearNew(b, s).infos
    ensures Ok(h, Enslot(ClearNew(b, s), s, id), {}, 0)
    ensures PlacedOnly(b, s, id, Enslot(ClearNew(b, s), s, id))
  {
    hide Ok, ClearNew, PlacedOnly, SlotIn, LosesOne, Untouched;
    ClearNewKeeps(h, b, loose, 0, s);
    PlacedEffect(b, s, id, ClearNew(b, s));
    EnslotOk(h, ClearNew(b, s), loose, 0, s, id);
    assert loose - {id} == {};
  }

  /** Creating an entry and deleting it at once changes nothing but the next id. */
  lemma DeleteInvertsAdded(b: Book, i: Info)
    requires b.idCount !in b.infos && i.who.net !in b.addrs && i.randomPos == |b.random|
    ensures Listed(Added(b, i), b.idCount)
    ensures Delete(Added(b, i), b.idCount) == b.(idCount := b.idCount + 1)
  {
    var b1 := Added(b, i);
    var b' := Delete(b1, b.idCount);
    assert b'.infos == b.infos;
    assert b'.addrs == b.addrs;
    assert b'.random == b.random;
  }

  lemma AddressIsKnown(h: Hasher, b: Book, loose: set<int>, uncounted: nat, a: NetAddr)
    requires Ok(h, b, loose, uncounted) && a in b.addrs
    ensures b.addrs[a] in b.infos && b.infos[b.addrs[a]].who.net == a
  {
    hide TriedOk, NewOk, RefsOk, CountsOk, RandomOk, InfosOk;
  }

  /** Every new entry has a slot to be found in. */
  lemma NewHasSlot(h: Hasher, b: Book, id: int)
    requires Ok(h, b, {}, 0) && id in b.infos && !b.infos[id].inTried
    ensures |Occurs(h, b.news, id, b.infos[id].who)| > 0
  {
    hide TriedOk, NewOk, CountsOk, RandomOk, AddrOk, Occurs;
    assert InfoOk(b.infos[id], false);
  }

  /** What Select_ relies on: a table that is counted as non-empty has an occupied slot. */
  lemma CountedTablesAreOccupied(h: Hasher, b: Book)
    requires Ok(h, b, {}, 0)
    ensures b.nTried > 0 ==> exists t :: t in b.tried && b.tried[t] in b.infos
    ensures b.nNew > 0 ==> exists s :: s in b.news && b.news[s] in b.infos
  {
    if b.nTried > 0 {
      var id := SomeMember(Tried(b.infos));
      assert TriedSlot(h, b.infos[id].who) in b.tried;
    }
    if b.nNew > 0 {
      assert |b.infos.Keys| > |Tried(b.infos)|;
      var id := SomeOther(b.infos.Keys, Tried(b.infos));
      NewHasSlot(h, b, id);
      var k :| k in Occurs(h, b.news, id, b.infos[id].who);
      assert SlotIn(h, k, b.infos[id].who) in b.news;
    }
  }

  lemma EmptyOrNot(a: set<int>)
    ensures a == {} || exists x :: x in a
  {
    if forall x :: x !in a {
      assert a == {};
    }
  }

  lemma SomeMember(a: set<int>) returns (x: int)
    requires |a| > 0
    ensures x in a
  {
    EmptyOrNot(a);
    x :| x in a;
  }

  lemma SomeOther(a: set<int>, b: set<int>) returns (x: int)
    requires |a| > |b|
    ensures x in a - b
  {
    SubsetSize(a * b, b);
    assert |a - b| == |a| - |a * b|;
    x := SomeMember(a - b);
  }

  lemma {:induction false} SubsetSize<T>(a: set<T>, b: set<T>)
    requires a <= b
    ensures |a| <= |b|
  {
    if a != {} {
      var x :| x in a;
      SubsetSize(a - {x}, b - {x});
    }
  }

  lemma SmallerSet<T>(a: set<T>, b: set<T>, x: T)
    requires a <= b && x in b && x !in a
    ensures |a| < |b|
  {
    SubsetSize(a, b - {x});
  }
}
