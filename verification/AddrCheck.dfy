/** CAddrMan::Check_, the consistency check of the address manager, and CAddrMan::Clear. */
module AddrCheck {
  import opened AddrBook
  import opened AddrMan

  /** What the check does not look at: that ids were given out in order, and that every address on file
      belongs to an entry. */
  ghost predicate Framed(b: Book) {
    && 0 <= b.idCount && (forall id {:trigger id in b.infos} :: id in b.infos ==> 0 <= id < b.idCount)
    && (forall a {:trigger a in b.addrs} :: a in b.addrs ==> b.addrs[a] in b.infos && b.infos[b.addrs[a]].who.net == a)
  }

  /** The table has no other slots than the array it stands for. */
  predicate InTable(t: map<Slot, int>, buckets: nat) {
    forall s :: s in t ==> s.bucket < buckets && s.pos < BUCKET_SIZE
  }

  // ---------------------------------------------------------------- the entries

  /** An entry passes all tests but that of its address. */
  predicate Proper(infos: Infos, random: seq<int>, id: int)
    requires id in infos
  {
    InfoOk(infos[id], false) && 0 <= infos[id].randomPos < |random| && random[infos[id].randomPos] == id
  }

  predicate Found(infos: Infos, addrs: map<NetAddr, int>, id: int)
    requires id in infos
  {
    infos[id].who.net in addrs && addrs[infos[id].who.net] == id
  }

  /** The entries outside `todo` have passed. */
  ghost predicate Passed(b: Book, addrs: map<NetAddr, int>, todo: set<int>) {
    forall id {:trigger id in b.infos} ::
          id in b.infos && id !in todo ==> Proper(b.infos, b.random, id) && Found(b.infos, addrs, id)
  }

  /** The ids of tried entries, and the reference counts of the others, outside `todo`. */
  ghost predicate Gathered(infos: Infos, todo: set<int>, setTried: set<int>, mapNew: map<int, int>) {
    && setTried == Tried(infos) - todo
    && (forall id :: id in mapNew <==> id in infos && id !in todo && !infos[id].inTried)
    && (forall id :: id in mapNew ==> mapNew[id] == infos[id].refCount)
  }

  /** Looking up an unknown address enters it with id 0. */
  ghost predicate Grown(addrs: map<NetAddr, int>, addrs': map<NetAddr, int>) {
    && (forall a {:trigger a in addrs} :: a in addrs ==> a in addrs' && addrs'[a] == addrs[a])
    && (forall a {:trigger a in addrs'} :: a in addrs' && a !in addrs ==> addrs'[a] == 0)
  }

  method CheckInfo(b: Book, id: int, addrs: map<NetAddr, int>) returns (r: int, addrs': map<NetAddr, int>)
    requires id in b.infos
    ensures Grown(addrs, addrs')
    ensures r == 0 <==> Proper(b.infos, b.random, id) && Found(b.infos, addrs', id)
  {
    var info := b.infos[id];
    addrs' := addrs;
    if info.inTried {
      if info.lastSuccess == 0 {
        return -1, addrs;
      }
      if info.refCount != 0 {
        return -2, addrs;
      }
    } else {
      if info.refCount < 0 || info.refCount > NEW_BUCKETS_PER_ADDRESS {
        return -3, addrs;
      }
      if info.refCount == 0 {
        return -4, addrs;
      }
    }
    if info.who.net !in addrs' {
      addrs' := addrs'[info.who.net := 0];
    }
    if addrs'[info.who.net] != id {
      return -5, addrs';
    }
    if info.randomPos < 0 || info.randomPos >= |b.random| || b.random[info.randomPos] != id {
      return -14, addrs';
    }
    if info.lastTry < 0 {
      return -6, addrs';
    }
    if info.lastSuccess < 0 {
      return -8, addrs';
    }
    return 0, addrs';
  }

  lemma GatheredMore(infos: Infos, todo: set<int>, setTried: set<int>, mapNew: map<int, int>, id: int)
    requires Gathered(infos, todo, setTried, mapNew) && id in todo && id in infos
    ensures if infos[id].inTried then Gathered(infos, todo - {id}, setTried + {id}, mapNew)
            else Gathered(infos, todo - {id}, setTried, mapNew[id := infos[id].refCount])
  {
    if infos[id].inTried {
      assert setTried + {id} == Tried(infos) - (todo - {id});
    } else {
      assert setTried == Tried(infos) - (todo - {id});
    }
  }

  lemma PassedMore(b: Book, addrs: map<NetAddr, int>, addrs': map<NetAddr, int>, todo: set<int>, id: int)
    requires Passed(b, addrs, todo) && Grown(addrs, addrs') && id in b.infos
    requires Proper(b.infos, b.random, id) && Found(b.infos, addrs', id)
    ensures Passed(b, addrs', todo - {id})
  {
    hide Proper;
  }

  lemma GrownTwice(a: map<NetAddr, int>, a1: map<NetAddr, int>, a2: map<NetAddr, int>)
    requires Grown(a, a1) && Grown(a1, a2)
    ensures Grown(a, a2)
  {
  }

  lemma StartGathered(infos: Infos)
    ensures Gathered(infos, infos.Keys, {}, map[])
  {
    assert Tried(infos) - infos.Keys == {};
  }

  /** The loop over all entries. */
  method CheckInfos(b: Book) returns (r: int, addrs: map<NetAddr, int>, setTried: set<int>, mapNew: map<int, int>)
    ensures Grown(b.addrs, addrs)
    ensures r == 0 <==> Passed(b, addrs, {})
    ensures r == 0 ==> Gathered(b.infos, {}, setTried, mapNew)
  {
    hide Proper, Found, Gathered, Tried;
    r, addrs, setTried, mapNew := 0, b.addrs, {}, map[];
    var todo := b.infos.Keys;
    StartGathered(b.infos);
    while todo != {}
      invariant todo <= b.infos.Keys && Passed(b, addrs, todo) && Gathered(b.infos, todo, setTried, mapNew)
                && Grown(b.addrs, addrs)
      decreases todo
    {
      EmptyOrNot(todo);
      var id :| id in todo;
      ghost var before := addrs;
      r, addrs := CheckInfo(b, id, addrs);
      GrownTwice(b.addrs, before, addrs);
      if r != 0 {
        assert id in b.infos && id !in {};
        return;
      }
      PassedMore(b, before, addrs, todo, id);
      GatheredMore(b.infos, todo, setTried, mapNew, id);
      if b.infos[id].inTried {
        setTried := setTried + {id};
      } else {
        mapNew := mapNew[id := b.infos[id].refCount];
      }
      todo := todo - {id};
    }
  }

  // ---------------------------------------------------------------- the tried table

  /** Slots in the order of the loops. */
  predicate Before(s: Slot, n: nat, i: nat) { s.bucket < n || (s.bucket == n && s.pos < i) }

  predicate GoodTried(h: Hasher, infos: Infos, tried: map<Slot, int>, s: Slot)
    requires s in tried
  {
    tried[s] in infos && infos[tried[s]].inTried && TriedSlot(h, infos[tried[s]].who) == s
  }

  /** The entry has been met in its slot. */
  predicate Met(h: Hasher, infos: Infos, tried: map<Slot, int>, id: int, n: nat, i: nat)
    requires id in infos
  {
    var t := TriedSlot(h, infos[id].who);
    Before(t, n, i) && t in tried && tried[t] == id
  }

  /** Slots passed so far are good, and `left` are the tried entries not met yet. */
  ghost predicate TriedScan(h: Hasher, infos: Infos, tried: map<Slot, int>, n: nat, i: nat, left: set<int>) {
    && (forall s {:trigger s in tried} :: s in tried && Before(s, n, i) ==> GoodTried(h, infos, tried, s))
    && (forall id {:trigger id in left} {:trigger id in infos} ::
         id in left <==> id in infos && infos[id].inTried && !Met(h, infos, tried, id, n, i))
  }

  lemma BeforeNext(t: Slot, n: nat, i: nat)
    ensures Before(t, n, i + 1) <==> Before(t, n, i) || t == Slot(n, i)
  {
    assert t == Slot(t.bucket, t.pos);
  }

  lemma MetNext(h: Hasher, infos: Infos, tried: map<Slot, int>, id: int, n: nat, i: nat)
    requires id in infos
    ensures Met(h, infos, tried, id, n, i + 1) <==>
              Met(h, infos, tried, id, n, i)
                || (Slot(n, i) in tried && tried[Slot(n, i)] == id && TriedSlot(h, infos[id].who) == Slot(n, i))
  {
    hide TriedSlot, Before;
    BeforeNext(TriedSlot(h, infos[id].who), n, i);
  }

  lemma TriedAdvance(h: Hasher, infos: Infos, tried: map<Slot, int>, n: nat, i: nat, left: set<int>)
    requires TriedScan(h, infos, tried, n, i, left)
    requires Slot(n, i) in tried ==> tried[Slot(n, i)] in left && GoodTried(h, infos, tried, Slot(n, i))
    ensures TriedScan(h, infos, tried, n, i + 1, if Slot(n, i) in tried then left - {tried[Slot(n, i)]} else left)
  {
    hide TriedSlot, Before, Met;
    var s := Slot(n, i);
    forall t | t in tried && Before(t, n, i + 1)
      ensures GoodTried(h, infos, tried, t)
    {
      BeforeNext(t, n, i);
    }
    var left' := if s in tried then left - {tried[s]} else left;
    forall id | id in infos
      ensures id in left' <==> infos[id].inTried && !Met(h, infos, tried, id, n, i + 1)
    {
      MetNext(h, infos, tried, id, n, i);
    }
  }

  lemma TriedFails(h: Hasher, infos: Infos, tried: map<Slot, int>, n: nat, i: nat, left: set<int>)
    requires TriedScan(h, infos, tried, n, i, left) && Slot(n, i) in tried && TriedOk(h, infos, tried)
    ensures tried[Slot(n, i)] in left && GoodTried(h, infos, tried, Slot(n, i))
  {
    hide TriedSlot;
    var s := Slot(n, i);
    assert GoodTried(h, infos, tried, s);
    assert !Met(h, infos, tried, tried[s], n, i);
  }

  lemma TriedNext(h: Hasher, infos: Infos, tried: map<Slot, int>, n: nat, i: nat, left: set<int>)
    requires TriedScan(h, infos, tried, n, i, left)
    ensures var s := Slot(n, i);
            if s !in tried then TriedScan(h, infos, tried, n, i + 1, left)
            else if tried[s] in left && GoodTried(h, infos, tried, s) then
                TriedScan(h, infos, tried, n, i + 1, left - {tried[s]})
            else !TriedOk(h, infos, tried)
  {
    hide TriedScan, TriedOk, GoodTried;
    var s := Slot(n, i);
    if s in tried && TriedOk(h, infos, tried) {
      TriedFails(h, infos, tried, n, i, left);
    }
    if s !in tried || (tried[s] in left && GoodTried(h, infos, tried, s)) {
      TriedAdvance(h, infos, tried, n, i, left);
    }
  }

  lemma TriedRow(h: Hasher, infos: Infos, tried: map<Slot, int>, n: nat, left: set<int>)
    requires TriedScan(h, infos, tried, n, BUCKET_SIZE, left) && InTable(tried, TRIED_BUCKET_COUNT)
    ensures TriedScan(h, infos, tried, n + 1, 0, left)
  {
    assert forall s: Slot :: s.pos < BUCKET_SIZE ==> (Before(s, n, BUCKET_SIZE) <==> Before(s, n + 1, 0));
  }

  lemma TriedStart(h: Hasher, infos: Infos, tried: map<Slot, int>)
    ensures TriedScan(h, infos, tried, 0, 0, Tried(infos))
  {
    hide TriedSlot;
  }

  lemma TriedEnd(h: Hasher, infos: Infos, tried: map<Slot, int>, left: set<int>)
    requires TriedScan(h, infos, tried, TRIED_BUCKET_COUNT, 0, left) && InTable(tried, TRIED_BUCKET_COUNT)
    ensures left == {} <==> TriedOk(h, infos, tried)
  {
    if left == {} {
      assert TriedOk(h, infos, tried);
    } else {
      EmptyOrNot(left);
      var id :| id in left;
      assert !Met(h, infos, tried, id, TRIED_BUCKET_COUNT, 0);
    }
  }

  method CheckTried(h: Hasher, infos: Infos, tried: map<Slot, int>, setTried: set<int>) returns (r: int, left: set<int>)
    requires setTried == Tried(infos) && InTable(tried, TRIED_BUCKET_COUNT)
    ensures r == 0 && left == {} <==> TriedOk(h, infos, tried)
  {
    hide TriedScan, TriedOk, InTable, Tried;
    left := setTried;
    TriedStart(h, infos, tried);
    for n := 0 to TRIED_BUCKET_COUNT
      invariant TriedScan(h, infos, tried, n, 0, left)
    {
      for i := 0 to BUCKET_SIZE
        invariant TriedScan(h, infos, tried, n, i, left)
      {
        TriedNext(h, infos, tried, n, i, left);
        var s := Slot(n, i);
        if s in tried {
          if tried[s] !in left {
            return -11, left;
          }
          LeftKnown(h, infos, tried, n, i, left, tried[s]);
          var t := TriedSlot(h, infos[tried[s]].who);
          if t.bucket != n {
            return -17, left;
          }
          if t.pos != i {
            return -18, left;
          }
          left := left - {tried[s]};
        }
      }
      TriedRow(h, infos, tried, n, left);
    }
    TriedEnd(h, infos, tried, left);
    r := 0;
  }

  lemma LeftKnown(h: Hasher, infos: Infos, tried: map<Slot, int>, n: nat, i: nat, left: set<int>, id: int)
    requires TriedScan(h, infos, tried, n, i, left) && id in left
    ensures id in infos && infos[id].inTried
  {
  }

  // ---------------------------------------------------------------- the new table

  predicate GoodNew(h: Hasher, infos: Infos, news: map<Slot, int>, s: Slot)
    requires s in news
  {
    news[s] in infos && !infos[news[s]].inTried && s == SlotIn(h, s.bucket, infos[news[s]].who)
  }

  /** The buckets in which an entry has been met so far. */
  function Seen(h: Hasher, news: map<Slot, int>, id: int, who: Service, n: nat, i: nat): set<nat> {
    set b | b in Occurs(h, news, id, who) && Before(SlotIn(h, b, who), n, i)
  }

  /** Slots passed so far are good, and `left` says how many references are still to be met. */
  ghost predicate NewScan(h: Hasher, infos: Infos, news: map<Slot, int>, n: nat, i: nat, left: map<int, int>) {
    && (forall s {:trigger s in news} :: s in news && Before(s, n, i) ==> GoodNew(h, infos, news, s))
    && (forall id {:trigger id in left} :: id in left ==> id in infos && !infos[id].inTried)
    && (forall id {:trigger id in infos} :: id in infos && !infos[id].inTried ==>
          var k := |Seen(h, news, id, infos[id].who, n, i)|;
          if id in left then left[id] == infos[id].refCount - k && left[id] > 0 else infos[id].refCount == k)
  }

  lemma SeenNext(h: Hasher, news: map<Slot, int>, id: int, who: Service, n: nat, i: nat)
    requires n < NEW_BUCKET_COUNT
    ensures var s, seen, seen' := Slot(n, i), Seen(h, news, id, who, n, i), Seen(h, news, id, who, n, i + 1);
            if s in news && news[s] == id && s == SlotIn(h, n, who) then
                seen' == seen + {n} && n !in seen && |seen'| == |seen| + 1 else seen' == seen
  {
    var s, seen, seen' := Slot(n, i), Seen(h, news, id, who, n, i), Seen(h, news, id, who, n, i + 1);
    forall b | b in Occurs(h, news, id, who)
      ensures b in seen' <==> b in seen || SlotIn(h, b, who) == s
    {
      BeforeNext(SlotIn(h, b, who), n, i);
    }
    if s in news && news[s] == id && s == SlotIn(h, n, who) {
      assert seen' == seen + {n};
    } else {
      assert seen' == seen;
    }
  }

  lemma NewAdvance(h: Hasher, infos: Infos, news: map<Slot, int>, n: nat, i: nat, left: map<int, int>)
    requires NewScan(h, infos, news, n, i, left) && n < NEW_BUCKET_COUNT
    requires Slot(n, i) in news ==> news[Slot(n, i)] in left && GoodNew(h, infos, news, Slot(n, i))
    ensures NewScan(h, infos, news, n, i + 1, if Slot(n, i) in news then Less(left, news[Slot(n, i)]) else left)
  {
    hide SlotIn, Seen, Before;
    var s := Slot(n, i);
    var left' := if s in news then Less(left, news[s]) else left;
    forall t | t in news && Before(t, n, i + 1)
      ensures GoodNew(h, infos, news, t)
    {
      BeforeNext(t, n, i);
    }
    forall id | id in infos && !infos[id].inTried
      ensures var k := |Seen(h, news, id, infos[id].who, n, i + 1)|;
              if id in left' then left'[id] == infos[id].refCount - k && left'[id] > 0 else infos[id].refCount == k
    {
      SeenNext(h, news, id, infos[id].who, n, i);
    }
  }

  /** One reference of an entry has been met. */
  function Less(left: map<int, int>, id: int): map<int, int>
    requires id in left
  {
    if left[id] == 1 then left - {id} else left[id := left[id] - 1]
  }

  lemma LessIs(left: map<int, int>, id: int)
    requires id in left
    ensures var fewer := left[id := left[id] - 1]; Less(left, id) == if fewer[id] == 0 then fewer - {id} else fewer
  {
    assert left[id := left[id] - 1] - {id} == left - {id};
  }

  lemma NewFails(h: Hasher, infos: Infos, news: map<Slot, int>, n: nat, i: nat, left: map<int, int>)
    requires NewScan(h, infos, news, n, i, left) && Slot(n, i) in news && NewOk(h, infos, news)
             && RefsOk(h, infos, news)
    ensures news[Slot(n, i)] in left && GoodNew(h, infos, news, Slot(n, i))
  {
    hide SlotIn;
    var s := Slot(n, i);
    var id := news[s];
    var who := infos[id].who;
    assert GoodNew(h, infos, news, s);
    var seen, every := Seen(h, news, id, who, n, i), Occurs(h, news, id, who);
    assert n in every && n !in seen && seen <= every;
    SmallerSet(seen, every, n);
  }

  lemma NewNext(h: Hasher, infos: Infos, news: map<Slot, int>, n: nat, i: nat, left: map<int, int>)
    requires NewScan(h, infos, news, n, i, left) && n < NEW_BUCKET_COUNT
    ensures var s := Slot(n, i);
            if s !in news then NewScan(h, infos, news, n, i + 1, left)
            else if news[s] in left && GoodNew(h, infos, news, s) then
                NewScan(h, infos, news, n, i + 1, Less(left, news[s]))
            else !(NewOk(h, infos, news) && RefsOk(h, infos, news))
  {
    hide NewScan, NewOk, RefsOk, GoodNew, Less;
    var s := Slot(n, i);
    if s in news && NewOk(h, infos, news) && RefsOk(h, infos, news) {
      NewFails(h, infos, news, n, i, left);
    }
    if s !in news || (news[s] in left && GoodNew(h, infos, news, s)) {
      NewAdvance(h, infos, news, n, i, left);
    }
  }

  lemma SeenRow(h: Hasher, news: map<Slot, int>, id: int, who: Service, n: nat)
    ensures Seen(h, news, id, who, n, BUCKET_SIZE) == Seen(h, news, id, who, n + 1, 0)
  {
    assert forall b :: b in Occurs(h, news, id, who) ==> SlotIn(h, b, who).pos < BUCKET_SIZE;
  }

  lemma NewRow(h: Hasher, infos: Infos, news: map<Slot, int>, n: nat, left: map<int, int>)
    requires NewScan(h, infos, news, n, BUCKET_SIZE, left) && InTable(news, NEW_BUCKET_COUNT)
    ensures NewScan(h, infos, news, n + 1, 0, left)
  {
    hide SlotIn, Seen;
    forall id | id in infos
      ensures Seen(h, news, id, infos[id].who, n, BUCKET_SIZE) == Seen(h, news, id, infos[id].who, n + 1, 0)
    {
      SeenRow(h, news, id, infos[id].who, n);
    }
  }

  lemma NewStart(h: Hasher, infos: Infos, news: map<Slot, int>, mapNew: map<int, int>, setTried: set<int>)
    requires Gathered(infos, {}, setTried, mapNew) && forall id :: id in infos ==> InfoOk(infos[id], false)
    ensures NewScan(h, infos, news, 0, 0, mapNew)
  {
    hide SlotIn;
    forall id | id in infos
      ensures Seen(h, news, id, infos[id].who, 0, 0) == {}
    {
    }
  }

  lemma SeenEnd(h: Hasher, news: map<Slot, int>, id: int, who: Service)
    ensures Seen(h, news, id, who, NEW_BUCKET_COUNT, 0) == Occurs(h, news, id, who)
  {
  }

  lemma NewEnd(h: Hasher, infos: Infos, news: map<Slot, int>, left: map<int, int>)
    requires NewScan(h, infos, news, NEW_BUCKET_COUNT, 0, left) && InTable(news, NEW_BUCKET_COUNT)
    requires forall id :: id in infos ==> InfoOk(infos[id], false)
    ensures left == map[] <==> NewOk(h, infos, news) && RefsOk(h, infos, news)
  {
    hide SlotIn, Seen, Occurs;
    forall id | id in infos
      ensures Seen(h, news, id, infos[id].who, NEW_BUCKET_COUNT, 0) == Occurs(h, news, id, infos[id].who)
    {
      SeenEnd(h, news, id, infos[id].who);
    }
    assert NewOk(h, infos, news);
    forall id | id in infos && infos[id].inTried
      ensures Occurs(h, news, id, infos[id].who) == {}
    {
      TriedNowhere(h, infos, news, id);
    }
    assert left.Keys == {} ==> left == map[];
    if left != map[] {
      EmptyOrNot(left.Keys);
      var id :| id in left.Keys;
      assert id in infos;
    }
  }

  lemma TriedNowhere(h: Hasher, infos: Infos, news: map<Slot, int>, id: int)
    requires NewOk(h, infos, news) && id in infos && infos[id].inTried
    ensures Occurs(h, news, id, infos[id].who) == {}
  {
    hide SlotIn;
  }

  method CheckNew(h: Hasher, infos: Infos, news: map<Slot, int>, mapNew: map<int, int>, ghost setTried: set<int>)
    returns (r: int, left: map<int, int>)
    requires Gathered(infos, {}, setTried, mapNew) && InTable(news, NEW_BUCKET_COUNT)
    requires forall id :: id in infos ==> InfoOk(infos[id], false)
    ensures r == 0 && left == map[] <==> NewOk(h, infos, news) && RefsOk(h, infos, news)
  {
    hide NewScan, NewOk, RefsOk, InTable, Gathered, InfoOk, SlotIn;
    left := mapNew;
    NewStart(h, infos, news, mapNew, setTried);
    for n := 0 to NEW_BUCKET_COUNT
      invariant NewScan(h, infos, news, n, 0, left)
    {
      for i := 0 to BUCKET_SIZE
        invariant NewScan(h, infos, news, n, i, left)
      {
        NewNext(h, infos, news, n, i, left);
        var s := Slot(n, i);
        if s in news {
          if news[s] !in left {
            return -12, left;
          }
          NewKnown(h, infos, news, n, i, left, news[s]);
          if SlotIn(h, n, infos[news[s]].who) != s {
            return -19, left;
          }
          LessIs(left, news[s]);
          left := left[news[s] := left[news[s]] - 1];
          if left[news[s]] == 0 {
            left := left - {news[s]};
          }
        }
      }
      NewRow(h, infos, news, n, left);
    }
    NewEnd(h, infos, news, left);
    r := 0;
  }

  lemma NewKnown(h: Hasher, infos: Infos, news: map<Slot, int>, n: nat, i: nat, left: map<int, int>, id: int)
    requires NewScan(h, infos, news, n, i, left) && id in left
    ensures id in infos && !infos[id].inTried
  {
  }

  // ---------------------------------------------------------------- the whole check

  /** As many entries as positions, each with a position of its own: no position is left over. */
  lemma PositionsFull(infos: Infos, random: seq<int>)
    requires |random| == |infos|
    requires forall id :: id in infos ==> 0 <= infos[id].randomPos < |random| && random[infos[id].randomPos] == id
    ensures RandomOk(infos, random)
  {
    forall i | 0 <= i < |random|
      ensures random[i] in infos && infos[random[i]].randomPos == i
    {
      if forall id :: id in infos ==> infos[id].randomPos != i {
        TooFew(infos.Keys, random, i);
      } else {
        var id :| id in infos && infos[id].randomPos == i;
      }
    }
  }

  /** Ids found at different positions, none of them position i, are fewer than the positions. */
  lemma TooFew(ids: set<int>, random: seq<int>, i: nat)
    requires i < |random| && forall id :: id in ids ==> exists k :: 0 <= k < |random| && k != i && random[k] == id
    ensures |ids| < |random|
  {
    var rest := random[..i] + random[i + 1..];
    forall id | id in ids
      ensures id in rest
    {
      var k :| 0 <= k < |random| && k != i && random[k] == id;
      assert rest[if k < i then k else k - 1] == id;
    }
    InSequence(ids, rest);
  }

  lemma {:induction false} InSequence(ids: set<int>, s: seq<int>)
    requires forall id :: id in ids ==> id in s
    ensures |ids| <= |s|
  {
    if s == [] {
      EmptyOrNot(ids);
    } else {
      var rest := s[..|s| - 1];
      assert s == rest + [s[|s| - 1]];
      InSequence(ids - {s[|s| - 1]}, rest);
      assert s[|s| - 1] !in ids ==> ids - {s[|s| - 1]} == ids;
    }
  }

  /** Everything the check looks at. */
  ghost predicate Checks(h: Hasher, b: Book) {
    && |b.random| == b.nTried + b.nNew && Passed(b, b.addrs, {})
    && |Tried(b.infos)| == b.nTried && |b.infos| - |Tried(b.infos)| == b.nNew
    && TriedOk(h, b.infos, b.tried) && NewOk(h, b.infos, b.news) && RefsOk(h, b.infos, b.news)
  }

  lemma RandomSize(infos: Infos, random: seq<int>)
    requires RandomOk(infos, random)
    ensures |random| == |infos|
  {
    InSequence(infos.Keys, random);
    Unrepeated(random, infos.Keys);
  }

  lemma {:induction false} Unrepeated(s: seq<int>, ids: set<int>)
    requires (forall i, j :: 0 <= i < j < |s| ==> s[i] != s[j]) && forall i :: 0 <= i < |s| ==> s[i] in ids
    ensures |s| <= |ids|
  {
    if s != [] {
      var rest, last := s[..|s| - 1], s[|s| - 1];
      Unrepeated(rest, ids - {last});
    }
  }

  lemma PassedIs(b: Book)
    requires Passed(b, b.addrs, {}) && Framed(b)
    ensures AddrOk(b.infos, b.addrs) && InfosOk(b.infos, {}, b.idCount)
    ensures forall id ::
              id in b.infos ==> 0 <= b.infos[id].randomPos < |b.random| && b.random[b.infos[id].randomPos] == id
  {
  }

  /** That is all there is to check. */
  lemma ChecksAreEnough(h: Hasher, b: Book)
    requires Framed(b)
    ensures Checks(h, b) <==> Ok(h, b, {}, 0)
  {
    hide TriedOk, NewOk, RefsOk;
    if Checks(h, b) {
      ChecksSuffice(h, b);
    }
    if Ok(h, b, {}, 0) {
      ChecksHold(h, b);
    }
  }

  lemma ChecksSuffice(h: Hasher, b: Book)
    requires Framed(b) && Checks(h, b)
    ensures Ok(h, b, {}, 0)
  {
    hide TriedOk, NewOk, RefsOk, AddrOk, RandomOk, InfosOk, Passed, Framed;
    PassedIs(b);
    PositionsFull(b.infos, b.random);
  }

  lemma ChecksHold(h: Hasher, b: Book)
    requires Ok(h, b, {}, 0)
    ensures Checks(h, b)
  {
    hide TriedOk, NewOk, RefsOk;
    RandomSize(b.infos, b.random);
  }

  /** The check succeeds exactly when all indexes agree.  Its only effect is to enter an address it does
      not find, with id 0. */
  method Check(m: Manager, keyIsNull: bool) returns (r: int)
    requires InTable(m.vvTried, TRIED_BUCKET_COUNT) && InTable(m.vvNew, NEW_BUCKET_COUNT)
    modifies m`mapAddr
    ensures Grown(old(m.mapAddr), m.mapAddr)
    ensures r == 0 <==> Checks(m.h, m.B()) && !keyIsNull
    ensures Framed(m.B()) ==> (r == 0 <==> m.Valid() && !keyIsNull)
  {
    hide Ok, Framed, Passed, TriedOk, NewOk, RefsOk, Gathered, InTable, Tried;
    if Framed(m.B()) {
      ChecksAreEnough(m.h, m.B());
    }
    if |m.vRandom| != m.nTried + m.nNew {
      return -7;
    }
    var b := Book(m.mapInfo, m.mapAddr, m.vRandom, m.vvTried, m.vvNew, m.nTried, m.nNew, m.nIdCount);
    var setTried, mapNew;
    r, m.mapAddr, setTried, mapNew := CheckInfos(b);
    if Framed(m.B()) {
      ChecksAreEnough(m.h, m.B());
    }
    PassedAddrs(b, m.mapAddr);
    if r != 0 {
      return;
    }
    GatheredSizes(m.mapInfo, setTried, mapNew);
    if |setTried| != m.nTried {
      return -9;
    }
    if |mapNew| != m.nNew {
      return -10;
    }
    PassedInfos(b, m.mapAddr);
    var left;
    r, left := CheckTried(m.h, m.mapInfo, m.vvTried, setTried);
    if r != 0 {
      return;
    }
    var rest;
    r, rest := CheckNew(m.h, m.mapInfo, m.vvNew, mapNew, setTried);
    if r != 0 {
      return;
    }
    if left != {} {
      return -13;
    }
    if rest != map[] {
      return -15;
    }
    if keyIsNull {
      return -16;
    }
    return 0;
  }

  lemma PassedAddrs(b: Book, addrs: map<NetAddr, int>)
    ensures Passed(b, addrs, {}) <==> Passed(b.(addrs := addrs), addrs, {})
  {
  }

  lemma PassedInfos(b: Book, addrs: map<NetAddr, int>)
    requires Passed(b, addrs, {})
    ensures forall id :: id in b.infos ==> InfoOk(b.infos[id], false)
  {
  }

  lemma GatheredSizes(infos: Infos, setTried: set<int>, mapNew: map<int, int>)
    requires Gathered(infos, {}, setTried, mapNew)
    ensures setTried == Tried(infos) && |mapNew| == |infos| - |Tried(infos)|
  {
    SameSet(mapNew.Keys, infos.Keys - Tried(infos));
    assert Tried(infos) <= infos.Keys;
  }

  lemma SameSet(a: set<int>, b: set<int>)
    requires forall x :: x in a <==> x in b
    ensures a == b
  {
    EmptyOrNot(a - b);
    EmptyOrNot(b - a);
    assert a == (a - b) + a * b && b == (b - a) + a * b;
  }

  /** Clear forgets the tables but not the entries, so the manager is consistent only if it was empty. */
  method Clear(m: Manager)
    modifies m
    ensures m.B() == Book(old(m.mapInfo), old(m.mapAddr), [], map[], map[], 0, 0, 0) && m.nLastGood == 1
    ensures m.Valid() <==> old(m.mapInfo) == map[] && old(m.mapAddr) == map[]
  {
    m.vRandom, m.vvNew, m.vvTried := [], map[], map[];
    m.nIdCount, m.nTried, m.nNew, m.nLastGood := 0, 0, 0, 1;
    ClearedOk(m.h, m.mapInfo, m.mapAddr);
  }

  lemma ClearedOk(h: Hasher, infos: Infos, addrs: map<NetAddr, int>)
    ensures Ok(h, Book(infos, addrs, [], map[], map[], 0, 0, 0), {}, 0) <==> infos == map[] && addrs == map[]
  {
    var b := Book(infos, addrs, [], map[], map[], 0, 0, 0);
    if infos == map[] && addrs == map[] {
      assert Tried(b.infos) == {};
    }
    if Ok(h, b, {}, 0) {
      assert forall id :: id !in infos;
      EmptyOrNot(infos.Keys);
      assert infos == map[];
      assert forall a :: a !in addrs;
      assert addrs == map[];
    }
  }

  /** A manager that has heard of one address is not consistent after Clear. */
  method ClearAfterAdd(h: Hasher) returns (m: Manager)
    ensures fresh(m) && !m.Valid()
  {
    hide Ok, PlacedOnly, AddrBook.Delete;
    m := new Manager(h, _ => true);
    var fNew := m.Add(Address(Service(1, 8333), 1, 1), 2, 0, 1, 0);
    NewEntryStays(h, FirstSeen(Address(Service(1, 8333), 1, 1), 2, 0, 0), 2, 1, m.B());
    Clear(m);
  }

  lemma NewEntryStays(h: Hasher, i: Info, source: NetAddr, now: int, b: Book)
    requires Placement(h, Added(Book(map[], map[], [], map[], map[], 0, 0, 0), i), 0, source, now, b)
    ensures 0 in b.infos
  {
  }
}
