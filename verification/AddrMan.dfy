/** CAddrMan: the operations on the address manager, each shown to keep all indexes consistent. */
module AddrMan {
  import opened AddrBook
  import opened Arithmetic

  const GETADDR_MAX_PCT: nat := 23
  const GETADDR_MAX: nat := 2500

  /** An address as it arrives from a peer (CAddress). */
  datatype Address = Address(who: Service, time: nat, services: bv64)

  function Max(a: int, b: int): int { if a < b then b else a }

  /** What is recorded about an address seen for the first time. */
  function FirstSeen(addr: Address, source: NetAddr, penalty: int, randomPos: int): Info {
    Info(addr.who, source, Max(0, addr.time - penalty), addr.services, 0, 0, 0, 0, 0, false, randomPos)
  }

  /** What seeing a known address again changes in its record. */
  function SeenAgain(i: Info, addr: Address, penalty: int, now: int): Info {
    var interval := if now - addr.time < 24 * 60 * 60 then 60 * 60 else 24 * 60 * 60;
    var time := if addr.time != 0 && (i.time == 0 || i.time < addr.time - interval - penalty) then
        Max(0, addr.time - penalty) else i.time;
    i.(time := time, services := i.services | addr.services)
  }

  /** What is recorded of an address that is heard of: its time less the penalty, and nothing else yet. */
  lemma FirstSeenIs(addr: Address, source: NetAddr, penalty: int, pos: int)
    ensures var i := FirstSeen(addr, source, penalty, pos);
            && i.who == addr.who && i.source == source && i.services == addr.services && i.randomPos == pos
            && i.time == (if addr.time >= penalty then addr.time - penalty else 0)
            && i.lastTry == i.lastCountAttempt == i.lastSuccess == i.attempts == i.refCount == 0 && !i.inTried
  {
  }

  /** The time on record never goes back.  It follows the time announced, less the penalty, with a lag of
      less than an hour for an address seen in the last day, or else a day; within that lag it stays. */
  lemma RecordFollows(i: Info, addr: Address, penalty: int, now: int)
    requires i.time >= 0 && penalty >= 0
    ensures var i', lag := SeenAgain(i, addr, penalty, now), if addr.time > now - 86400 then 3600 else 86400;
            && i'.time >= i.time && (addr.time != 0 ==> i'.time + lag >= addr.time - penalty)
            && (i'.time != i.time ==> addr.time != 0 && i'.time == addr.time - penalty)
            && (i.time != 0 && i.time + lag >= addr.time - penalty ==> i'.time == i.time)
            && (i.time == 0 && addr.time > penalty ==> i'.time == addr.time - penalty)
            && i' == i.(time := i'.time, services := i.services | addr.services)
  {
  }

  /** The exact service, port included, has an entry. */
  predicate Knows(b: Book, who: Service) {
    who.net in b.addrs && b.addrs[who.net] in b.infos && b.infos[b.addrs[who.net]].who == who
  }

  /** The record of a known service is replaced; nothing else changes. */
  function Touched(b: Book, who: Service, i: Info): Book
    requires Knows(b, who)
  {
    b.(infos := b.infos[b.addrs[who.net] := i])
  }

  function Met(i: Info, nTime: int): Info { i.(lastSuccess := nTime, lastTry := nTime, attempts := 0) }

  function Attempted(i: Info, fCountFailure: bool, nTime: int, lastGood: int): Info {
    if fCountFailure && i.lastCountAttempt < lastGood then
      i.(lastTry := nTime, lastCountAttempt := nTime, attempts := i.attempts + 1)
    else i.(lastTry := nTime)
  }

  class Manager {
    const h: Hasher
    const isRoutable: NetAddr -> bool
    var nIdCount: int
    var mapInfo: Infos
    var mapAddr: map<NetAddr, int>
    var vRandom: seq<int>
    var nTried: int
    var vvTried: map<Slot, int>     // an absent slot is the code's -1
    var nNew: int
    var vvNew: map<Slot, int>
    var nLastGood: int

    ghost function B(): Book
      reads this
    {
      Book(mapInfo, mapAddr, vRandom, vvTried, vvNew, nTried, nNew, nIdCount)
    }

    ghost predicate Valid()
      reads this
    {
      Ok(h, B(), {}, 0)
    }

    constructor (h: Hasher, isRoutable: NetAddr -> bool)
      ensures Valid() && this.h == h && this.isRoutable == isRoutable
      ensures B() == Book(map[], map[], [], map[], map[], 0, 0, 0) && nLastGood == 1
    {
      this.h, this.isRoutable := h, isRoutable;
      nIdCount, mapInfo, mapAddr, vRandom, nTried, vvTried, nNew, vvNew, nLastGood := 0, map[], map[], [], 0, map[], 0,
        map[], 1;
    }

    // ---------------------------------------------------------------- building blocks

    method Create(addr: Address, source: NetAddr) returns (id: int)
      modifies this`nIdCount, this`mapInfo, this`mapAddr, this`vRandom
      ensures id == old(nIdCount)
      ensures B() == Added(old(B()), FirstSeen(addr, source, 0, |old(vRandom)|)).(nNew := old(nNew))
    {
      id := nIdCount;
      nIdCount := nIdCount + 1;
      mapInfo := mapInfo[id := FirstSeen(addr, source, 0, -1)];
      mapAddr := mapAddr[addr.who.net := id];
      mapInfo := mapInfo[id := mapInfo[id].(randomPos := |vRandom|)];
      vRandom := vRandom + [id];
      assert mapInfo == old(mapInfo)[id := FirstSeen(addr, source, 0, |old(vRandom)|)];
    }

    method SwapRandom(nRndPos1: nat, nRndPos2: nat)
      requires nRndPos1 == nRndPos2 ||
               (nRndPos1 < |vRandom| && nRndPos2 < |vRandom| && vRandom[nRndPos1] in mapInfo
                 && vRandom[nRndPos2] in mapInfo)
      modifies this`mapInfo, this`vRandom
      ensures B() == AddrBook.SwapRandom(old(B()), nRndPos1, nRndPos2)
    {
      if nRndPos1 == nRndPos2 {
        return;
      }
      var nId1, nId2 := vRandom[nRndPos1], vRandom[nRndPos2];
      mapInfo := mapInfo[nId1 := mapInfo[nId1].(randomPos := nRndPos2)];
      mapInfo := mapInfo[nId2 := mapInfo[nId2].(randomPos := nRndPos1)];
      vRandom := vRandom[nRndPos1 := nId2];
      vRandom := vRandom[nRndPos2 := nId1];
    }

    method Delete(id: int)
      requires Listed(B(), id) && !mapInfo[id].inTried && mapInfo[id].refCount == 0
      modifies this`mapInfo, this`mapAddr, this`vRandom, this`nNew
      ensures B() == AddrBook.Delete(old(B()), id)
    {
      SwapRandom(mapInfo[id].randomPos, |vRandom| - 1);
      vRandom := vRandom[..|vRandom| - 1];
      mapAddr := mapAddr - {mapInfo[id].who.net};
      mapInfo := mapInfo - {id};
      nNew := nNew - 1;
    }

    method ClearNew(s: Slot)
      requires s in vvNew ==> Listed(B(), vvNew[s]) && !mapInfo[vvNew[s]].inTried && mapInfo[vvNew[s]].refCount > 0
      modifies this`mapInfo, this`mapAddr, this`vRandom, this`nNew, this`vvNew
      ensures B() == AddrBook.ClearNew(old(B()), s)
    {
      if s in vvNew {
        var nIdDelete := vvNew[s];
        mapInfo := mapInfo[nIdDelete := mapInfo[nIdDelete].(refCount := mapInfo[nIdDelete].refCount - 1)];
        vvNew := vvNew - {s};
        if mapInfo[nIdDelete].refCount == 0 {
          Delete(nIdDelete);
        }
      }
    }

    /** The first loop of MakeTried: the entry leaves all new buckets. */
    method LeaveNew(id: int)
      requires Valid() && id in mapInfo
      modifies this`mapInfo, this`vvNew, this`nNew
      ensures B() == Detached(old(B()), id)
    {
      hide Ok, NewOk, Occurs, SlotIn, Without;
      SlotsFit(h, B(), {}, 0);
      ghost var infos, news := mapInfo, vvNew;
      var who := mapInfo[id].who;
      WithoutEnds(h, infos, news, id);
      for bucket := 0 to NEW_BUCKET_COUNT
        invariant vvNew == Without(news, id, bucket)
        invariant mapInfo == infos[id := infos[id].(refCount := |Occurs(h, vvNew, id, who)|)]
        invariant nNew == old(nNew)
      {
        WithoutNext(h, infos, news, id, bucket);
        var s := SlotIn(h, bucket, mapInfo[id].who);
        if s in vvNew && vvNew[s] == id {
          vvNew := vvNew - {s};
          mapInfo := mapInfo[id := mapInfo[id].(refCount := mapInfo[id].refCount - 1)];
        }
      }
      nNew := nNew - 1;
    }

    /** The entry in a tried slot goes back to the new table. */
    method Evict(ghost loose: set<int>, ghost uncounted: nat, t: Slot)
      requires Ok(h, B(), loose, uncounted) && t in vvTried
      modifies this
      ensures old(vvTried[t] in mapInfo) && vvTried == old(vvTried) - {t}
      ensures Ok(h, B(), loose, uncounted) && EvictedOnly(h, old(B()), t, B())
      ensures nLastGood == old(nLastGood)
    {
      hide Ok, EvictedOnly, AddrBook.ClearNew, NewSlot, LosesOne, Untouched;
      ghost var b := B();
      EvictedKeeps(h, b, loose, uncounted, t);
      EvictedClears(h, b, loose, uncounted, t);
      var nIdEvict := vvTried[t];
      mapInfo := mapInfo[nIdEvict := mapInfo[nIdEvict].(inTried := false)];
      vvTried := vvTried - {t};
      nTried := nTried - 1;
      var s := NewSlot(h, mapInfo[nIdEvict].who, mapInfo[nIdEvict].source);
      ClearNew(s);
      mapInfo := mapInfo[nIdEvict := mapInfo[nIdEvict].(refCount := 1)];
      vvNew := vvNew[s := nIdEvict];
      nNew := nNew + 1;
      EvictedEmpties(h, b, t, B());
    }

    method MakeTried(id: int)
      requires Valid() && id in mapInfo && !mapInfo[id].inTried && mapInfo[id].lastSuccess != 0
      modifies this
      ensures Valid() && MovedToTried(h, old(B()), id, B())
      ensures nLastGood == old(nLastGood)
    {
      hide Ok, EvictedOnly, MovedToTried, TriedSlot;
      ghost var b := B();
      DetachedKeeps(h, b, id);
      NoSlotsLeft(h, b, id);
      LeaveNew(id);
      assert B() == Detached(b, id);
      var t := TriedSlot(h, mapInfo[id].who);
      if t in vvTried {
        Evict({id}, 1, t);
        TriedAfter(h, b, id, B());
      } else {
        TriedAlone(h, b, id);
      }
      vvTried := vvTried[t := id];
      nTried := nTried + 1;
      mapInfo := mapInfo[id := mapInfo[id].(inTried := true)];
    }

    // ---------------------------------------------------------------- public operations

    /** A successful connection: the entry moves to the tried table if it is not there yet. */
    method Good(addr: Service, nTime: int, rnd: nat)
      requires Valid() && nTime > 0
      modifies this
      ensures Valid() && nLastGood == nTime
      ensures !Knows(old(B()), addr) ==> B() == old(B())
      ensures Knows(old(B()), addr) ==>
                var id := old(mapAddr)[addr.net];
                var met := Touched(old(B()), addr, Met(old(mapInfo)[id], nTime));
                if old(mapInfo)[id].inTried then B() == met else MovedToTried(h, met, id, B())
    {
      hide Ok, MovedToTried, Occurs, SlotIn, InfoOk;
      nLastGood := nTime;
      if addr.net !in mapAddr {
        return;
      }
      var nId := mapAddr[addr.net];
      AddressIsKnown(h, B(), {}, 0, addr.net);
      if mapInfo[nId].who != addr {
        return;
      }
      MetKeeps(h, B(), nId, nTime);
      mapInfo := mapInfo[nId := Met(mapInfo[nId], nTime)];
      if mapInfo[nId].inTried {
        return;
      }
      var nUBucket := -1;
      NewHasSlot(h, B(), nId);
      ghost var news := vvNew;
      SomeHit(h, news, nId, addr, rnd);
      for n := 0 to NEW_BUCKET_COUNT
        modifies {}
        invariant nUBucket == -1
        invariant forall k :: 0 <= k < n ==> Misses(h, news, nId, addr, rnd, k)
      {
        var nB := (n + rnd) % NEW_BUCKET_COUNT;
        OccursIn(h, vvNew, nId, addr, nB);
        var s := SlotIn(h, nB, mapInfo[nId].who);
        if s in vvNew && vvNew[s] == nId {
          nUBucket := nB;
          break;
        }
      }
      if nUBucket == -1 {
        assert false;
      }
      MakeTried(nId);
    }

    /** The end of Add_: entry `nId` tries to get the slot its address and the source demand. */
    method Place(nId: int, source: NetAddr, now: int, ghost loose: set<int>)
      requires Ok(h, B(), loose, 0) && loose <= {nId}
      requires nId in mapInfo && !mapInfo[nId].inTried && mapInfo[nId].refCount < NEW_BUCKETS_PER_ADDRESS
      requires mapInfo[nId].refCount == 0 ==> nId in loose
      modifies this
      ensures Valid() && nLastGood == old(nLastGood)
      ensures Placement(h, old(B()), nId, source, now, B())
    {
      hide Ok, PlacedOnly, AddrBook.ClearNew, NewSlot, SlotIn, AddrBook.Delete, IsTerrible;
      ghost var b := B();
      var s := NewSlot(h, mapInfo[nId].who, source);
      KnownSlots(h, b, loose, 0);
      if s in vvNew {
        Occupant(h, b, loose, 0, s);
      }
      NotLoose(h, b, loose, nId, s);
      if s !in vvNew || vvNew[s] != nId {
        var fInsert := s !in vvNew;
        if !fInsert {
          var infoExisting := mapInfo[vvNew[s]];
          if IsTerrible(infoExisting, now) || (infoExisting.refCount > 1 && mapInfo[nId].refCount == 0) {
            fInsert := true;
          }
        }
        if fInsert {
          PlacedKeeps(h, b, loose, s, nId);
          ClearNew(s);
          mapInfo := mapInfo[nId := mapInfo[nId].(refCount := mapInfo[nId].refCount + 1)];
          vvNew := vvNew[s := nId];
          assert B() == Enslot(AddrBook.ClearNew(b, s), s, nId);
        } else if mapInfo[nId].refCount == 0 {
          DeleteKeeps(h, b, loose, 0, nId);
          Delete(nId);
          assert loose - {nId} == {};
        }
      }
    }

    /** An address was heard of: returns whether it was unknown. */
    method Add(addr: Address, source: NetAddr, nTimePenalty: int, now: int, rnd: nat) returns (fNew: bool)
      requires Valid()
      modifies this
      ensures Valid() && nLastGood == old(nLastGood)
      ensures fNew <==> isRoutable(addr.who.net) && addr.who.net !in old(mapAddr)
      ensures !isRoutable(addr.who.net) ==> B() == old(B())
      ensures fNew ==>
                Placement(h, Added(old(B()), FirstSeen(addr, source, nTimePenalty, |old(vRandom)|)), old(nIdCount),
                source, now, B())
      ensures isRoutable(addr.who.net) && !fNew ==>
                var id := old(mapAddr)[addr.who.net];
                id in old(mapInfo) &&
                var i := SeenAgain(old(mapInfo)[id], addr, nTimePenalty, now);
                var seen := old(B()).(infos := old(mapInfo)[id := i]);
                if WantsMore(i, addr, rnd) then Placement(h, seen, id, source, now, B()) else B() == seen
    {
      hide Ok, Placement, InfoOk;
      if !isRoutable(addr.who.net) {
        return false;
      }
      var nId;
      ghost var b := B();
      if addr.who.net in mapAddr {
        fNew := false;
        nId := mapAddr[addr.who.net];
        AddressIsKnown(h, b, {}, 0, addr.who.net);
        SeenKeeps(h, b, nId, addr, nTimePenalty, now);
        mapInfo := mapInfo[nId := SeenAgain(mapInfo[nId], addr, nTimePenalty, now)];
        if addr.time == 0 || (mapInfo[nId].time != 0 && addr.time <= mapInfo[nId].time) {
          return;
        }
        if mapInfo[nId].inTried {
          return;
        }
        if mapInfo[nId].refCount == NEW_BUCKETS_PER_ADDRESS {
          return;
        }
        var nFactor := Factor(mapInfo[nId].refCount);
        if nFactor > 1 && rnd % nFactor != 0 {
          return;
        }
        Place(nId, source, now, {});
      } else {
        FirstKeeps(h, b, addr, source, nTimePenalty);
        nId := Create(addr, source);
        mapInfo := mapInfo[nId := mapInfo[nId].(time := Max(0, mapInfo[nId].time - nTimePenalty))];
        nNew := nNew + 1;
        fNew := true;
        assert B().infos == Added(b, FirstSeen(addr, source, nTimePenalty, |b.random|)).infos;
        Place(nId, source, now, {nId});
      }
    }

    /** A connection attempt. */
    method Attempt(addr: Service, fCountFailure: bool, nTime: int)
      requires Valid() && nTime > 0
      modifies this`mapInfo
      ensures Valid()
      ensures B() == if Knows(old(B()), addr) then
                       Touched(old(B()), addr,
                         Attempted(old(mapInfo)[old(mapAddr)[addr.net]], fCountFailure, nTime, nLastGood))
                     else old(B())
    {
      hide Ok;
      if addr.net !in mapAddr {
        return;
      }
      var nId := mapAddr[addr.net];
      AddressIsKnown(h, B(), {}, 0, addr.net);
      if mapInfo[nId].who != addr {
        return;
      }
      AttemptKeeps(h, B(), nId, fCountFailure, nTime, nLastGood);
      var info := mapInfo[nId].(lastTry := nTime);
      if fCountFailure && info.lastCountAttempt < nLastGood {
        info := info.(lastCountAttempt := nTime, attempts := info.attempts + 1);
      }
      mapInfo := mapInfo[nId := info];
    }

    /** A peer is connected. */
    method Connected(addr: Service, nTime: int)
      requires Valid()
      modifies this`mapInfo
      ensures Valid()
      ensures B() == if Knows(old(B()), addr) then
                       var i := old(mapInfo)[old(mapAddr)[addr.net]];
                       Touched(old(B()), addr, if nTime - i.time > 20 * 60 then i.(time := nTime) else i)
                     else old(B())
    {
      hide Ok;
      if addr.net !in mapAddr {
        return;
      }
      var nId := mapAddr[addr.net];
      AddressIsKnown(h, B(), {}, 0, addr.net);
      if mapInfo[nId].who != addr {
        return;
      }
      if nTime - mapInfo[nId].time > 20 * 60 {
        RecordKeeps(h, B(), nId, nTime, mapInfo[nId].services);
        mapInfo := mapInfo[nId := mapInfo[nId].(time := nTime)];
      } else {
        assert mapInfo[nId := mapInfo[nId]] == mapInfo;
      }
    }

    /** The service bits of a peer are known. */
    method SetServices(addr: Service, nServices: bv64)
      requires Valid()
      modifies this`mapInfo
      ensures Valid()
      ensures B() == if Knows(old(B()), addr) then
                       Touched(old(B()), addr, old(mapInfo)[old(mapAddr)[addr.net]].(services := nServices))
                     else old(B())
    {
      hide Ok;
      if addr.net !in mapAddr {
        return;
      }
      var nId := mapAddr[addr.net];
      AddressIsKnown(h, B(), {}, 0, addr.net);
      if mapInfo[nId].who != addr {
        return;
      }
      RecordKeeps(h, B(), nId, mapInfo[nId].time, nServices);
      mapInfo := mapInfo[nId := mapInfo[nId].(services := nServices)];
    }

    /** A random sample of the good addresses; `rnd` is the random source. */
    method GetAddr(now: int, rnd: seq<nat>) returns (vAddr: seq<Service>)
      requires Valid() && |rnd| == |vRandom|
      modifies this`mapInfo, this`vRandom
      ensures Valid() && OnlyMoved(old(mapInfo), mapInfo) && |vRandom| == |old(vRandom)|
      ensures |vAddr| <= 2500 && 100 * |vAddr| <= 23 * |vRandom|
      ensures forall i, j :: 0 <= i < j < |vAddr| ==> vAddr[i] != vAddr[j]
      ensures forall i :: 0 <= i < |vAddr| ==> Knows(B(), vAddr[i]) && !IsTerrible(mapInfo[mapAddr[vAddr[i].net]], now)
      ensures |vAddr| < 2500 && 100 * (|vAddr| + 1) <= 23 * |vRandom| ==>
                forall id :: id in mapInfo && !IsTerrible(mapInfo[id], now) ==> mapInfo[id].who in vAddr
    {
      hide Ok, IsTerrible, AddrBook.SwapRandom, OnlyMoved;
      var nNodes := GETADDR_MAX_PCT * |vRandom| / 100;
      if nNodes > GETADDR_MAX {
        nNodes := GETADDR_MAX;
      }
      vAddr := [];
      var n := 0;
      MovedNothing(mapInfo);
      while n < |vRandom|
        invariant 0 <= n <= |vRandom| == |old(vRandom)| && |vAddr| <= nNodes
        invariant Valid() && OnlyMoved(old(mapInfo), mapInfo)
        invariant unchanged(`mapAddr) && unchanged(`vvTried) && unchanged(`vvNew)
        invariant Listing(mapInfo, vRandom[..n], now, vAddr)
      {
        if |vAddr| >= nNodes {
          break;
        }
        var nRndPos := rnd[n] % (|vRandom| - n) + n;
        ghost var b := B();
        NextPick(h, b, old(mapInfo), n, nRndPos, now, vAddr);
        SwapRandom(n, nRndPos);
        var ai := mapInfo[vRandom[n]];
        if !IsTerrible(ai, now) {
          vAddr := vAddr + [ai.who];
        }
        n := n + 1;
      }
      ListingSound(h, B(), n, now, vAddr);
    }
  }

  /** The good ones among these entries, in order. */
  ghost predicate Listing(infos: Infos, ids: seq<int>, now: int, vAddr: seq<Service>) {
    && (forall i :: 0 <= i < |ids| ==> ids[i] in infos)
    && vAddr == GoodOnes(infos, ids, now)
  }

  function GoodOnes(infos: Infos, ids: seq<int>, now: int): seq<Service>
    requires forall i :: 0 <= i < |ids| ==> ids[i] in infos
  {
    if ids == [] then []
    else
      var last := |ids| - 1;
      GoodOnes(infos, ids[..last], now) + if IsTerrible(infos[ids[last]], now) then [] else [infos[ids[last]].who]
  }

  lemma MovedNothing(infos: Infos)
    ensures OnlyMoved(infos, infos)
  {
  }

  lemma MovedAgain(infos: Infos, infos': Infos, infos'': Infos)
    requires OnlyMoved(infos, infos') && OnlyMoved(infos', infos'')
    ensures OnlyMoved(infos, infos'')
  {
    forall id | id in infos
      ensures infos''[id] == infos[id].(randomPos := infos''[id].randomPos)
    {
      assert id in infos';
    }
  }

  lemma SwapKeepsPrefix(b: Book, p: nat, q: nat)
    requires p <= q < |b.random| && b.random[p] in b.infos && b.random[q] in b.infos
    ensures |AddrBook.SwapRandom(b, p, q).random| == |b.random|
    ensures AddrBook.SwapRandom(b, p, q).random[..p] == b.random[..p]
  {
  }

  lemma RandomIsKnown(h: Hasher, b: Book, n: nat)
    requires Ok(h, b, {}, 0) && n < |b.random|
    ensures b.random[n] in b.infos
  {
    hide AddrOk, TriedOk, NewOk, CountsOk, RefsOk, InfosOk;
  }

  lemma {:induction false} ListingMoved(infos: Infos, infos': Infos, ids: seq<int>, now: int, vAddr: seq<Service>)
    requires OnlyMoved(infos, infos') && Listing(infos, ids, now, vAddr)
    ensures Listing(infos', ids, now, vAddr)
  {
    if ids != [] {
      var last := |ids| - 1;
      ListingMoved(infos, infos', ids[..last], now, GoodOnes(infos, ids[..last], now));
      var id := ids[last];
      assert id in infos;
    }
  }

  lemma ListingNext(h: Hasher, b: Book, n: nat, now: int, vAddr: seq<Service>)
    requires n < |b.random| && Listing(b.infos, b.random[..n], now, vAddr) && b.random[n] in b.infos
    ensures Listing(b.infos, b.random[..n + 1], now,
                    if IsTerrible(b.infos[b.random[n]], now) then vAddr else vAddr + [b.infos[b.random[n]].who])
  {
    hide IsTerrible;
    assert b.random[..n + 1][..n] == b.random[..n];
    assert vAddr + [] == vAddr;
  }

  /** One round of GetAddr: entry q is brought to position n and considered. */
  lemma NextPick(h: Hasher, b: Book, infos: Infos, n: nat, q: nat, now: int, vAddr: seq<Service>)
    requires Ok(h, b, {}, 0) && n <= q < |b.random| && OnlyMoved(infos, b.infos)
    requires Listing(b.infos, b.random[..n], now, vAddr)
    ensures b.random[n] in b.infos && b.random[q] in b.infos
    ensures var b' := AddrBook.SwapRandom(b, n, q);
            && Ok(h, b', {}, 0) && OnlyMoved(infos, b'.infos) && |b'.random| == |b.random| && b'.random[n] in b'.infos
            && Listing(b'.infos, b'.random[..n + 1], now,
                       if IsTerrible(b'.infos[b'.random[n]], now) then vAddr else vAddr + [b'.infos[b'.random[n]].who])
  {
    hide Ok, OnlyMoved, Listing, AddrBook.SwapRandom, IsTerrible;
    SwapRandomKeeps(h, b, {}, 0, n, q);
    var b' := AddrBook.SwapRandom(b, n, q);
    SwapKeepsPrefix(b, n, q);
    MovedAgain(infos, b.infos, b'.infos);
    RandomIsKnown(h, b', n);
    ListingMoved(b.infos, b'.infos, b'.random[..n], now, vAddr);
    ListingNext(h, b', n, now, vAddr);
  }

  lemma RecordKeeps(h: Hasher, b: Book, id: int, time: int, services: bv64)
    requires Ok(h, b, {}, 0) && id in b.infos
    ensures Ok(h, b.(infos := b.infos[id := b.infos[id].(time := time, services := services)]), {}, 0)
  {
    hide Ok;
    LooseInfo(h, b, {}, 0, id);
    TouchKeeps(h, b, {}, 0, id, b.infos[id].(time := time, services := services));
  }

  lemma AttemptKeeps(h: Hasher, b: Book, id: int, fCountFailure: bool, nTime: int, lastGood: int)
    requires Ok(h, b, {}, 0) && id in b.infos && nTime > 0
    ensures Ok(h, b.(infos := b.infos[id := Attempted(b.infos[id], fCountFailure, nTime, lastGood)]), {}, 0)
  {
    hide Ok;
    LooseInfo(h, b, {}, 0, id);
    TouchKeeps(h, b, {}, 0, id, Attempted(b.infos[id], fCountFailure, nTime, lastGood));
  }

  /** Exactly the good ones among the entries, each once. */
  ghost predicate Sifted(infos: Infos, addrs: map<NetAddr, int>, ids: seq<int>, now: int, v: seq<Service>) {
    && (forall i :: 0 <= i < |ids| ==> ids[i] in infos)
    && (forall i :: 0 <= i < |v| ==>
          && v[i].net in addrs && addrs[v[i].net] in ids && addrs[v[i].net] in infos
          && infos[addrs[v[i].net]].who == v[i] && !IsTerrible(infos[addrs[v[i].net]], now))
    && (forall i, j :: 0 <= i < j < |v| ==> v[i] != v[j])
    && (forall i :: 0 <= i < |ids| && !IsTerrible(infos[ids[i]], now) ==> infos[ids[i]].who in v)
  }

  lemma {:induction false} GoodOnesFrom(infos: Infos, addrs: map<NetAddr, int>, ids: seq<int>, now: int)
    requires AddrOk(infos, addrs)
    requires forall i :: 0 <= i < |ids| ==> ids[i] in infos
    requires forall i, j :: 0 <= i < j < |ids| ==> ids[i] != ids[j]
    ensures Sifted(infos, addrs, ids, now, GoodOnes(infos, ids, now))
  {
    hide Sifted, AddrOk, IsTerrible;
    if ids == [] {
      SiftedNone(infos, addrs, now);
    } else {
      var last := |ids| - 1;
      GoodOnesFrom(infos, addrs, ids[..last], now);
      SiftedNext(infos, addrs, ids[..last], now, GoodOnes(infos, ids[..last], now), ids[last]);
      assert ids == ids[..last] + [ids[last]];
    }
  }

  lemma SiftedNone(infos: Infos, addrs: map<NetAddr, int>, now: int)
    ensures Sifted(infos, addrs, [], now, [])
  {
  }

  lemma SiftedNext(infos: Infos, addrs: map<NetAddr, int>, ids: seq<int>, now: int, v: seq<Service>, id: int)
    requires Sifted(infos, addrs, ids, now, v) && AddrOk(infos, addrs) && id in infos && id !in ids
    ensures Sifted(infos, addrs, ids + [id], now, v + if IsTerrible(infos[id], now) then [] else [infos[id].who])
  {
    hide IsTerrible;
    var ids', v' := ids + [id], v + if IsTerrible(infos[id], now) then [] else [infos[id].who];
    forall i | 0 <= i < |v|
      ensures v[i] != infos[id].who
    {
      assert addrs[v[i].net] in ids;
    }
    forall i | 0 <= i < |ids'| && !IsTerrible(infos[ids'[i]], now)
      ensures infos[ids'[i]].who in v'
    {
      if i < |ids| {
        assert infos[ids[i]].who in v;
      } else {
        assert v'[|v|] == infos[id].who;
      }
    }
  }

  lemma ListingSound(h: Hasher, b: Book, n: nat, now: int, vAddr: seq<Service>)
    requires Ok(h, b, {}, 0) && n <= |b.random| && Listing(b.infos, b.random[..n], now, vAddr)
    ensures forall i, j :: 0 <= i < j < |vAddr| ==> vAddr[i] != vAddr[j]
    ensures forall i :: 0 <= i < |vAddr| ==> Knows(b, vAddr[i]) && !IsTerrible(b.infos[b.addrs[vAddr[i].net]], now)
    ensures n == |b.random| ==> forall id :: id in b.infos && !IsTerrible(b.infos[id], now) ==> b.infos[id].who in vAddr
  {
    hide TriedOk, NewOk, CountsOk, RefsOk, InfosOk, IsTerrible;
    GoodOnesFrom(b.infos, b.addrs, b.random[..n], now);
    assert Sifted(b.infos, b.addrs, b.random[..n], now, vAddr);
    hide GoodOnes;
    if n == |b.random| {
      forall id | id in b.infos && !IsTerrible(b.infos[id], now)
        ensures b.infos[id].who in vAddr
      {
        assert b.random[..n][b.infos[id].randomPos] == id;
      }
    }
  }

  /** A known address is offered one more slot, 2^n times less often for one that has n slots. */
  predicate WantsMore(i: Info, addr: Address, rnd: nat) {
    && !(addr.time == 0 || (i.time != 0 && addr.time <= i.time))
    && !i.inTried && i.refCount != NEW_BUCKETS_PER_ADDRESS
    && i.refCount >= 0 && rnd % Pow2(i.refCount) == 0
  }

  /** What an attempt to place entry `id` in the slot for a source leads to. */
  ghost predicate Placement(h: Hasher, b: Book, id: int, source: NetAddr, now: int, b': Book) {
    && id in b.infos
    && var s := NewSlot(h, b.infos[id].who, source);
       && (s in b.news ==> b.news[s] in b.infos)
       && if s in b.news && b.news[s] == id then b' == b
          else if MayTake(b, s, id, now) then PlacedOnly(b, s, id, b')
          else if b.infos[id].refCount == 0 then Listed(b, id) && b' == AddrBook.Delete(b, id)
          else b' == b
  }

  /** Making room never forgets an entry that is worth keeping, unless it is the newcomer itself. */
  lemma ForgetsOnlyWorthless(h: Hasher, b: Book, loose: set<int>, id: int, source: NetAddr, now: int, b': Book, x: int)
    requires Ok(h, b, loose, 0) && id in b.infos && (b.infos[id].refCount == 0 ==> id in loose)
    requires Placement(h, b, id, source, now, b')
    requires x in b.infos && !IsTerrible(b.infos[x], now) && (x == id ==> b.infos[id].refCount != 0)
    ensures x in b'.infos && b'.infos[x].who == b.infos[x].who
  {
    hide Ok, IsTerrible, NewSlot, OnlyMoved, AddrBook.Delete;
    if b.infos[id].refCount == 0 {
      DeleteKeeps(h, b, loose, 0, id);
      OnlyMovedAt(b.infos - {id}, AddrBook.Delete(b, id).infos, x);
    }
    var s := NewSlot(h, b.infos[id].who, source);
    var kept := b.infos.Keys - {id} - (if s in b.news then {b.news[s]} else {});
    assert x == id || (s in b.news && x == b.news[s]) || x in kept;
  }

  lemma OnlyMovedAt(infos: Infos, infos': Infos, x: int)
    requires OnlyMoved(infos, infos')
    ensures x in infos ==> x in infos' && infos'[x].who == infos[x].who
  {
  }

  lemma NotLoose(h: Hasher, b: Book, loose: set<int>, id: int, s: Slot)
    requires Ok(h, b, loose, 0) && loose <= {id} && id in b.infos
    ensures b.infos[id].refCount != 0 ==> loose == {}
    ensures s in b.news && b.news[s] == id ==> loose == {}
  {
    hide AddrOk, TriedOk, NewOk, CountsOk, RandomOk, RefsOk;
    assert InfoOk(b.infos[id], id in loose);
    if id !in loose {
      assert loose == {};
    }
    if s in b.news && b.news[s] == id {
      Occupant(h, b, loose, 0, s);
    }
  }

  lemma SeenKeeps(h: Hasher, b: Book, id: int, addr: Address, penalty: int, now: int)
    requires Ok(h, b, {}, 0) && id in b.infos
    ensures Ok(h, b.(infos := b.infos[id := SeenAgain(b.infos[id], addr, penalty, now)]), {}, 0)
    ensures 0 <= b.infos[id].refCount <= NEW_BUCKETS_PER_ADDRESS && (!b.infos[id].inTried ==> b.infos[id].refCount > 0)
  {
    hide Ok;
    LooseInfo(h, b, {}, 0, id);
    TouchKeeps(h, b, {}, 0, id, SeenAgain(b.infos[id], addr, penalty, now));
  }

  lemma FirstKeeps(h: Hasher, b: Book, addr: Address, source: NetAddr, penalty: int)
    requires Ok(h, b, {}, 0) && addr.who.net !in b.addrs
    ensures b.idCount !in b.infos
    ensures Ok(h, Added(b, FirstSeen(addr, source, penalty, |b.random|)), {b.idCount}, 0)
  {
    hide Ok;
    AddedKeeps(h, b, {}, 0, FirstSeen(addr, source, penalty, |b.random|));
    assert {} + {b.idCount} == {b.idCount};
  }

  /** The stochastic test of Add_ doubles its odds for each reference. */
  method Factor(refCount: nat) returns (nFactor: nat)
    ensures nFactor == Pow2(refCount) && nFactor >= 1
  {
    nFactor := 1;
    for n := 0 to refCount
      invariant nFactor == Pow2(n)
    {
      nFactor := nFactor * 2;
    }
  }

  lemma OccursIn(h: Hasher, news: map<Slot, int>, id: int, who: Service, b: nat)
    requires b < NEW_BUCKET_COUNT
    ensures b in Occurs(h, news, id, who) <==> SlotIn(h, b, who) in news && news[SlotIn(h, b, who)] == id
  {
  }

  /** The k-th bucket from a starting point does not hold the entry. */
  predicate Misses(h: Hasher, news: map<Slot, int>, id: int, who: Service, rnd: nat, k: nat) {
    (k + rnd) % NEW_BUCKET_COUNT !in Occurs(h, news, id, who)
  }

  /** Going round all buckets from any starting point misses none. */
  lemma SomeHit(h: Hasher, news: map<Slot, int>, id: int, who: Service, rnd: nat)
    requires |Occurs(h, news, id, who)| > 0
    ensures exists k :: 0 <= k < NEW_BUCKET_COUNT && !Misses(h, news, id, who, rnd, k)
  {
    var b: nat :| b in Occurs(h, news, id, who);
    var k := Reaching(b, rnd);
    assert !Misses(h, news, id, who, rnd, k);
  }

  lemma Reaching(b: nat, rnd: nat) returns (k: nat)
    requires b < NEW_BUCKET_COUNT
    ensures k < NEW_BUCKET_COUNT && (k + rnd) % NEW_BUCKET_COUNT == b
  {
    k := (b + NEW_BUCKET_COUNT - rnd % NEW_BUCKET_COUNT) % NEW_BUCKET_COUNT;
  }

  lemma MetKeeps(h: Hasher, b: Book, id: int, nTime: int)
    requires Ok(h, b, {}, 0) && id in b.infos && nTime > 0
    ensures Ok(h, b.(infos := b.infos[id := Met(b.infos[id], nTime)]), {}, 0)
  {
    hide Ok;
    LooseInfo(h, b, {}, 0, id);
    TouchKeeps(h, b, {}, 0, id, Met(b.infos[id], nTime));
  }

  lemma EvictedClears(h: Hasher, b: Book, loose: set<int>, uncounted: nat, t: Slot)
    requires Ok(h, b, loose, uncounted) && t in b.tried
    ensures b.tried[t] in b.infos
    ensures var s := NewSlot(h, b.infos[b.tried[t]].who, b.infos[b.tried[t]].source);
            s in b.news ==>
              var d := Demoted(b, t);
              b.news[s] in d.infos && !d.infos[b.news[s]].inTried && d.infos[b.news[s]].refCount > 0
  {
    hide Ok, NewSlot;
    DemotedKeeps(h, b, loose, uncounted, t);
    var s := NewSlot(h, b.infos[b.tried[t]].who, b.infos[b.tried[t]].source);
    if s in b.news {
      Occupant(h, Demoted(b, t), loose + {b.tried[t]}, uncounted + 1, s);
    }
  }

  lemma EvictedEmpties(h: Hasher, b: Book, t: Slot, b': Book)
    requires t in b.tried && b.tried[t] in b.infos && EvictedOnly(h, b, t, b')
    ensures b'.tried == b.tried - {t}
  {
  }

  /** Whoever is in a slot of the new table is a new entry with references. */
  lemma Occupant(h: Hasher, b: Book, loose: set<int>, uncounted: nat, s: Slot)
    requires Ok(h, b, loose, uncounted) && s in b.news
    ensures Listed(b, b.news[s]) && !b.infos[b.news[s]].inTried && b.infos[b.news[s]].refCount > 0
  {
    UnslotOk(h, b, loose, uncounted, s);
    AllListed(h, b, loose, uncounted, b.news[s]);
    hide RandomOk, AddrOk, TriedOk, RefsOk, CountsOk, InfosOk, Listed;
  }
}
