/** Exactly which peers files are read into a consistent manager. */
module AddrLoad {
  import opened AddrBook
  import opened AddrFile

  function All(f: File): seq<Record> { f.news + f.tried }

  /** Every new record becomes an entry, and a tried one unless an earlier one wants its slot. */
  predicate Entered(f: File, k: nat)
    requires k < |All(f)|
  {
    k < |f.news|
      || forall j :: 0 <= j < k - |f.news| ==> TriedSlot(f.key, f.tried[j].who) != TriedSlot(f.key, All(f)[k].who)
  }

  /** The record becomes an entry that is in a table. New records have the first numbers. Without usable
      buckets a new record gets the slot of its source unless an earlier one wants it; with them, a slot
      that some bucket names and that is free when its turn comes. */
  predicate Placed(f: File, k: nat)
    requires k < |All(f)|
  {
    Entered(f, k) && (k < |f.news| ==> if Usable(f) then !Homeless(Tables(f), k) else FirstThere(f.key, f.news, k))
  }

  function SlotOf(h: Hasher, r: Record): Slot { NewSlot(h, r.who, r.source) }

  predicate FirstThere(h: Hasher, news: seq<Record>, k: nat)
    requires k < |news|
  {
    forall j :: 0 <= j < k ==> SlotOf(h, news[j]) != SlotOf(h, news[k])
  }

  predicate Timely(lastSuccess: int, tried: bool) { lastSuccess >= 0 && (tried ==> lastSuccess != 0) }

  /** No record that gets a place shares its address with another that becomes an entry, and its time of
      success is as it should be. Records that get no place, or were never entered, may say anything else. */
  predicate Coherent(f: File) {
    forall k :: 0 <= k < |All(f)| && Placed(f, k) ==>
      && Timely(All(f)[k].lastSuccess, k >= |f.news|)
      && forall j :: 0 <= j < |All(f)| && Entered(f, j) && j != k ==> All(f)[j].who.net != All(f)[k].who.net
  }

  // ---------------------------------------------------------------- numbers instead of addresses

  /** Record k under its number, as one that was reached. */
  function Tagged(r: Record, k: nat): Record { r.(who := Service(k, 0), lastSuccess := 1) }

  function TaggedAll(records: seq<Record>, first: nat): (r: seq<Record>)
    ensures |r| == |records| && forall i :: 0 <= i < |r| ==> r[i] == Tagged(records[i], first + i)
  {
    seq(|records|, i requires 0 <= i < |records| => Tagged(records[i], first + i))
  }

  /** What a number stands for. */
  function Behind(all: seq<Record>, number: Service): Service {
    if number.net < |all| then all[number.net].who else number
  }

  /** Puts a number where the address it stands for goes. */
  function Through(h: Hasher, all: seq<Record>): Hasher {
    Hasher(
      (n: Service) => h.tried(Behind(all, n)),
      (n: Service, source: NetAddr) => h.fresh_(Behind(all, n), source),
      (isNew: bool, bucket: nat, n: Service) => h.position(isNew, bucket, Behind(all, n)))
  }

  function Anonymous(f: File): File {
    f.(key := Through(f.key, All(f)), news := TaggedAll(f.news, 0), tried := TaggedAll(f.tried, |f.news|))
  }

  lemma AnonymousIsClean(f: File)
    requires Accepted(f) && Counting(f)
    ensures Clean(Anonymous(f)) && Accepted(Anonymous(f)) && Usable(Anonymous(f)) == Usable(f)
  {
    var g := Anonymous(f);
    forall i | 0 <= i < |All(g)|
      ensures All(g)[i].who.net == i
    {
      assert All(g)[i] == if i < |g.news| then g.news[i] else g.tried[i - |g.news|];
    }
  }

  predicate StandsFor(all: seq<Record>, number: Service, who: Service) {
    number.net < |all| && all[number.net].who == who
  }

  lemma SameSlots(h: Hasher, all: seq<Record>, number: Service, who: Service, source: NetAddr)
    requires StandsFor(all, number, who)
    ensures TriedSlot(Through(h, all), number) == TriedSlot(h, who)
    ensures NewSlot(Through(h, all), number, source) == NewSlot(h, who, source)
    ensures forall bucket: nat :: SlotIn(Through(h, all), bucket, number) == SlotIn(h, bucket, who)
  {
    assert Behind(all, number) == who;
    assert Through(h, all).tried(number) == h.tried(who);
    assert Through(h, all).fresh_(number, source) == h.fresh_(who, source);
    assert forall isNew, bucket: nat ::
             Through(h, all).position(isNew, bucket, number) == h.position(isNew, bucket, who);
  }

  predicate TwinInfo(all: seq<Record>, i: Info, i': Info) {
    && StandsFor(all, i'.who, i.who) && i.lastSuccess == all[i'.who.net].lastSuccess
    && i' == i.(who := i'.who, lastSuccess := 1)
  }

  /** The same but for addresses. */
  ghost predicate Twin(all: seq<Record>, b: Book, c: Book) {
    && c == b.(infos := c.infos, addrs := c.addrs) && c.infos.Keys == b.infos.Keys
    && forall id {:trigger id in b.infos} :: id in b.infos ==> TwinInfo(all, b.infos[id], c.infos[id])
  }

  lemma EnslotTwin(all: seq<Record>, b: Book, c: Book, s: Slot, id: int)
    requires Twin(all, b, c) && id in b.infos
    ensures Twin(all, Enslot(b, s, id), Enslot(c, s, id))
  {
    hide StandsFor;
    assert TwinInfo(all, b.infos[id], c.infos[id]);
  }

  lemma AddedTwin(all: seq<Record>, b: Book, c: Book, i: Info, i': Info)
    requires Twin(all, b, c) && TwinInfo(all, i, i')
    ensures Twin(all, Added(b, i), Added(c, i'))
  {
    hide TwinInfo;
  }

  lemma LoadNewTwin(h: Hasher, all: seq<Record>, b: Book, c: Book, r: Record, k: nat, direct: bool)
    requires Twin(all, b, c) && k < |all| && all[k] == r
    ensures Twin(all, LoadNew(h, b, r, direct), LoadNew(Through(h, all), c, Tagged(r, k), direct))
  {
    hide Twin, NewSlot, Through, Enslot;
    TwinParts(all, b, c);
    SameSlots(h, all, Service(k, 0), r.who, r.source);
    var i := Loaded(r, |b.random|);
    AddedTwin(all, b, c, i, Loaded(Tagged(r, k), |c.random|));
    EnslotTwin(all, Added(b, i), Added(c, Loaded(Tagged(r, k), |c.random|)), NewSlot(h, r.who, r.source), b.idCount);
  }

  lemma TwinParts(all: seq<Record>, b: Book, c: Book)
    requires Twin(all, b, c)
    ensures c.random == b.random && c.news == b.news && c.tried == b.tried && c.idCount == b.idCount
    ensures c.nNew == b.nNew && c.nTried == b.nTried
    ensures c.infos.Keys == b.infos.Keys && forall id :: id in b.infos ==> TwinInfo(all, b.infos[id], c.infos[id])
  {
  }

  lemma PromotedTwin(h: Hasher, all: seq<Record>, b: Book, c: Book, id: int)
    requires Twin(all, b, c) && id in b.infos
    ensures Twin(all, Promoted(h, b, id), Promoted(Through(h, all), c, id))
  {
    hide TriedSlot, Through;
    assert TwinInfo(all, b.infos[id], c.infos[id]);
    SameSlots(h, all, c.infos[id].who, b.infos[id].who, 0);
  }

  lemma LoadTriedTwin(h: Hasher, all: seq<Record>, b: Book, c: Book, r: Record, k: nat)
    requires Twin(all, b, c) && k < |all| && all[k] == r
    ensures Twin(all, LoadTried(h, b, r), LoadTried(Through(h, all), c, Tagged(r, k)))
  {
    hide Twin, TriedSlot, Through, Promoted;
    TwinParts(all, b, c);
    SameSlots(h, all, Service(k, 0), r.who, r.source);
    var i, i' := Loaded(r, |b.random|), Loaded(Tagged(r, k), |c.random|);
    AddedTwin(all, b, c, i, i');
    CountTwin(all, Added(b, i), Added(c, i'), b.nNew);
    PromotedTwin(h, all, Added(b, i).(nNew := b.nNew), Added(c, i').(nNew := b.nNew), b.idCount);
    TableTwin(all, Promoted(h, Added(b, i).(nNew := b.nNew), b.idCount),
      Promoted(Through(h, all), Added(c, i').(nNew := b.nNew), b.idCount), b.tried);
  }

  lemma TableTwin(all: seq<Record>, b: Book, c: Book, tried: map<Slot, int>)
    requires Twin(all, b, c)
    ensures Twin(all, b.(tried := tried), c.(tried := tried))
  {
  }

  lemma CountTwin(all: seq<Record>, b: Book, c: Book, n: int)
    requires Twin(all, b, c)
    ensures Twin(all, b.(nNew := n), c.(nNew := n))
  {
  }

  lemma LoadIndexTwin(h: Hasher, all: seq<Record>, b: Book, c: Book, bucket: nat, index: int, nNew: int)
    requires Twin(all, b, c)
    ensures Twin(all, LoadIndex(h, b, bucket, index, nNew), LoadIndex(Through(h, all), c, bucket, index, nNew))
  {
    hide Twin, SlotIn, Through, Enslot;
    TwinParts(all, b, c);
    if index in b.infos {
      SameSlots(h, all, c.infos[index].who, b.infos[index].who, 0);
      EnslotTwin(all, b, c, SlotIn(h, bucket, b.infos[index].who), index);
    }
  }

  lemma {:induction false} LoadNewsTwin(h: Hasher, all: seq<Record>, news: seq<Record>, n: nat, direct: bool)
    requires n <= |news| && news <= all
    ensures Twin(all, LoadNews(h, news, n, direct), LoadNews(Through(h, all), TaggedAll(news, 0), n, direct))
  {
    hide LoadNew, TwinInfo, Through;
    if n > 0 {
      LoadNewsTwin(h, all, news, n - 1, direct);
      var h' := Through(h, all);
      LoadNewTwin(h, all, LoadNews(h, news, n - 1, direct), LoadNews(h', TaggedAll(news, 0), n - 1, direct),
        news[n - 1], n - 1, direct);
    }
  }

  lemma {:induction false} LoadTriedsTwin(h: Hasher, all: seq<Record>, b: Book, c: Book, k: nat, tried: seq<Record>,
      n: nat)
    requires n <= |tried| && k + |tried| == |all| && all[k..] == tried && Twin(all, b, c)
    ensures Twin(all, LoadTrieds(h, b, tried, n), LoadTrieds(Through(h, all), c, TaggedAll(tried, k), n))
  {
    hide LoadTried, Twin, Through;
    if n > 0 {
      LoadTriedsTwin(h, all, b, c, k, tried, n - 1);
      var b1, c1 := LoadTrieds(h, b, tried, n - 1), LoadTrieds(Through(h, all), c, TaggedAll(tried, k), n - 1);
      LoadTriedTwin(h, all, b1, c1, tried[n - 1], k + n - 1);
    }
  }

  lemma {:induction false} LoadBucketTwin(h: Hasher, all: seq<Record>, b: Book, c: Book, bucket: nat, indexes: seq<int>,
      nNew: int)
    requires Twin(all, b, c)
    ensures Twin(all, LoadBucket(h, b, bucket, indexes, nNew), LoadBucket(Through(h, all), c, bucket, indexes, nNew))
  {
    hide LoadIndex, Twin, Through;
    if indexes != [] {
      var last, h' := |indexes| - 1, Through(h, all);
      LoadBucketTwin(h, all, b, c, bucket, indexes[..last], nNew);
      var b1, c1 := LoadBucket(h, b, bucket, indexes[..last], nNew), LoadBucket(h', c, bucket, indexes[..last], nNew);
      LoadIndexTwin(h, all, b1, c1, bucket, indexes[last], nNew);
    }
  }

  lemma {:induction false} LoadBucketsTwin(h: Hasher, all: seq<Record>, b: Book, c: Book, buckets: seq<seq<int>>,
      n: nat, nNew: int)
    requires n <= |buckets| && Twin(all, b, c)
    ensures Twin(all, LoadBuckets(h, b, buckets, n, nNew), LoadBuckets(Through(h, all), c, buckets, n, nNew))
  {
    hide LoadBucket, Twin, Through;
    if n > 0 {
      LoadBucketsTwin(h, all, b, c, buckets, n - 1, nNew);
      var b1, c1 := LoadBuckets(h, b, buckets, n - 1, nNew), LoadBuckets(Through(h, all), c, buckets, n - 1, nNew);
      LoadBucketTwin(h, all, b1, c1, n - 1, buckets[n - 1], nNew);
    }
  }

  lemma SwapTwin(all: seq<Record>, b: Book, c: Book, p: nat, q: nat)
    requires Twin(all, b, c) && p < |b.random| && q < |b.random| && b.random[p] in b.infos && b.random[q] in b.infos
    ensures Twin(all, SwapRandom(b, p, q), SwapRandom(c, p, q))
  {
    hide StandsFor;
  }

  lemma RemovedTwin(all: seq<Record>, b: Book, c: Book, id: int, random: seq<int>)
    requires Twin(all, b, c) && id in b.infos
    ensures Twin(all, Removed(b, id).(random := random), Removed(c, id).(random := random))
  {
    hide TwinInfo;
  }

  lemma SwapParts(b: Book, p: nat, q: nat)
    requires p < |b.random| && q < |b.random| && b.random[p] in b.infos && b.random[q] in b.infos
    ensures SwapRandom(b, p, q).infos.Keys == b.infos.Keys && |SwapRandom(b, p, q).random| == |b.random|
  {
  }

  lemma TwinListed(all: seq<Record>, b: Book, c: Book, id: int)
    requires Twin(all, b, c) && id in b.infos
    ensures c.random == b.random && c.infos.Keys == b.infos.Keys && c.infos[id].randomPos == b.infos[id].randomPos
  {
    hide StandsFor;
    assert TwinInfo(all, b.infos[id], c.infos[id]);
  }

  lemma DeleteTwin(all: seq<Record>, b: Book, c: Book, id: int)
    requires Twin(all, b, c) && Listed(b, id)
    ensures Listed(c, id) && Twin(all, Delete(b, id), Delete(c, id))
  {
    hide Twin, Removed, SwapRandom;
    TwinListed(all, b, c, id);
    var p, q := b.infos[id].randomPos, |b.random| - 1;
    SwapTwin(all, b, c, p, q);
    SwapParts(b, p, q);
    var b1, c1 := SwapRandom(b, p, q), SwapRandom(c, p, q);
    TwinListed(all, b1, c1, id);
    RemovedTwin(all, b1, c1, id, b1.random[..|b1.random| - 1]);
  }

  lemma {:induction false} PruneTwin(all: seq<Record>, b: Book, c: Book, n: nat)
    requires Twin(all, b, c)
    ensures Twin(all, Prune(b, n), Prune(c, n))
  {
    hide Twin, Delete, StandsFor;
    if n > 0 {
      PruneTwin(all, b, c, n - 1);
      var b1, c1 := Prune(b, n - 1), Prune(c, n - 1);
      TwinParts(all, b1, c1);
      if Listed(b1, n - 1) {
        DeleteTwin(all, b1, c1, n - 1);
      }
    }
  }

  lemma EntriesTwin(f: File)
    requires Counting(f)
    ensures Usable(Anonymous(f)) == Usable(f) && Twin(All(f), Entries(f), Entries(Anonymous(f)))
  {
    hide Twin, LoadNews, LoadTrieds, Through, Flip;
    EntriesPlain(f);
    EntriesPlain(Anonymous(f));
    var h, all, direct := f.key, All(f), !Usable(f);
    LoadNewsTwin(h, all, f.news, |f.news|, direct);
    assert all[|f.news|..] == f.tried;
    var b, c := LoadNews(h, f.news, |f.news|, direct),
        LoadNews(Through(h, all), TaggedAll(f.news, 0), |f.news|, direct);
    LoadTriedsTwin(h, all, b, c, |f.news|, f.tried, |f.tried|);
  }

  lemma TablesTwin(f: File)
    requires Counting(f)
    ensures Twin(All(f), Tables(f), Tables(Anonymous(f)))
  {
    hide Twin, Entries, LoadBuckets, Through, Usable;
    EntriesTwin(f);
    LoadBucketsTwin(f.key, All(f), Entries(f), Entries(Anonymous(f)), f.buckets, |f.buckets|, |f.news|);
  }

  lemma ReadTwin(f: File)
    requires Counting(f)
    ensures Twin(All(f), Read(f), Read(Anonymous(f)))
  {
    hide Twin, Tables, Prune, Anonymous;
    TablesTwin(f);
    var b, c := Tables(f), Tables(Anonymous(f));
    TwinParts(All(f), b, c);
    PruneTwin(All(f), b, c, Times(b.idCount));
  }

  // ---------------------------------------------------------------- all but the addresses

  lemma TriedAgain(h: Hasher, all: seq<Record>, b: Book, c: Book)
    requires Twin(all, b, c) && TriedOk(Through(h, all), c.infos, c.tried)
    ensures TriedOk(h, b.infos, b.tried)
  {
    hide TriedSlot, Through;
    forall id | id in b.infos
      ensures TriedSlot(Through(h, all), c.infos[id].who) == TriedSlot(h, b.infos[id].who)
              && c.infos[id].inTried == b.infos[id].inTried
    {
      SameSlots(h, all, c.infos[id].who, b.infos[id].who, 0);
    }
    forall s | s in b.tried
      ensures b.tried[s] in b.infos && b.infos[b.tried[s]].inTried && TriedSlot(h, b.infos[b.tried[s]].who) == s
    {
      assert s in c.tried && c.tried[s] in b.infos;
    }
  }

  lemma NewAgain(h: Hasher, all: seq<Record>, b: Book, c: Book)
    requires Twin(all, b, c) && NewOk(Through(h, all), c.infos, c.news)
    ensures NewOk(h, b.infos, b.news)
  {
    hide SlotIn, Through;
    forall s | s in b.news
      ensures s.bucket < NEW_BUCKET_COUNT && b.news[s] in b.infos && !b.infos[b.news[s]].inTried
      ensures s == SlotIn(h, s.bucket, b.infos[b.news[s]].who)
    {
      var id := c.news[s];
      assert s in c.news && id in b.infos;
      SameSlots(h, all, c.infos[id].who, b.infos[id].who, 0);
    }
  }

  lemma RefsAgain(h: Hasher, all: seq<Record>, b: Book, c: Book)
    requires Twin(all, b, c) && RefsOk(Through(h, all), c.infos, c.news)
    ensures RefsOk(h, b.infos, b.news)
  {
    hide SlotIn, Through;
    forall id | id in b.infos
      ensures b.infos[id].refCount == |Occurs(h, b.news, id, b.infos[id].who)|
    {
      SameSlots(h, all, c.infos[id].who, b.infos[id].who, 0);
      assert Occurs(Through(h, all), c.news, id, c.infos[id].who) == Occurs(h, b.news, id, b.infos[id].who);
    }
  }

  lemma CountsAgain(all: seq<Record>, b: Book, c: Book)
    requires Twin(all, b, c) && CountsOk(c.infos, c.nTried, c.nNew, 0)
    ensures CountsOk(b.infos, b.nTried, b.nNew, 0)
  {
    hide StandsFor;
    forall id | id in b.infos
      ensures id in Tried(b.infos) <==> id in Tried(c.infos)
    {
      assert TwinInfo(all, b.infos[id], c.infos[id]);
    }
    assert Tried(b.infos) == Tried(c.infos);
    assert |b.infos.Keys| == |c.infos.Keys|;
  }

  lemma RandomAgain(all: seq<Record>, b: Book, c: Book)
    requires Twin(all, b, c) && RandomOk(c.infos, c.random)
    ensures RandomOk(b.infos, b.random)
  {
    hide StandsFor;
    forall id | id in b.infos
      ensures c.infos[id].randomPos == b.infos[id].randomPos && id in c.infos
    {
      assert TwinInfo(all, b.infos[id], c.infos[id]);
    }
    forall i | 0 <= i < |b.random|
      ensures b.random[i] in b.infos && b.infos[b.random[i]].randomPos == i
    {
      assert c.random[i] in c.infos;
    }
  }

  ghost predicate AllTimely(infos: Infos) {
    forall id {:trigger id in infos} :: id in infos ==> Timely(infos[id].lastSuccess, infos[id].inTried)
  }

  lemma InfosAgain(all: seq<Record>, b: Book, c: Book)
    requires Twin(all, b, c) && InfosOk(c.infos, {}, c.idCount)
    ensures InfosOk(b.infos, {}, b.idCount) <==> AllTimely(b.infos)
  {
    hide StandsFor;
    forall id | id in b.infos
      ensures 0 <= id < b.idCount
              && (InfoOk(b.infos[id], false) <==> Timely(b.infos[id].lastSuccess, b.infos[id].inTried))
    {
      assert TwinInfo(all, b.infos[id], c.infos[id]) && InfoOk(c.infos[id], false);
    }
    if InfosOk(b.infos, {}, b.idCount) {
      forall id | id in b.infos
        ensures Timely(b.infos[id].lastSuccess, b.infos[id].inTried)
      {
        assert InfoOk(b.infos[id], id in {});
      }
    }
  }

  lemma ButAddresses(h: Hasher, all: seq<Record>, b: Book, c: Book)
    requires Twin(all, b, c) && Ok(Through(h, all), c, {}, 0)
    ensures Ok(h, b, {}, 0) <==> AddrOk(b.infos, b.addrs) && AllTimely(b.infos)
  {
    hide Twin, Through, AddrOk, TriedOk, NewOk, RefsOk, InfosOk, CountsOk, RandomOk, AllTimely;
    TriedAgain(h, all, b, c);
    NewAgain(h, all, b, c);
    RefsAgain(h, all, b, c);
    CountsAgain(all, b, c);
    RandomAgain(all, b, c);
    InfosAgain(all, b, c);
  }

  // ---------------------------------------------------------------- the addresses

  /** Every address leads to an entry that has it, maybe one of several. */
  ghost predicate Reaches(b: Book) {
    && (forall a {:trigger a in b.addrs} :: a in b.addrs ==> b.addrs[a] in b.infos && b.infos[b.addrs[a]].who.net == a)
    && (forall id {:trigger id in b.infos} :: id in b.infos ==> b.infos[id].who.net in b.addrs)
  }

  lemma LoadNewReaches(h: Hasher, b: Book, r: Record, direct: bool)
    requires Reaches(b) && b.idCount !in b.infos
    ensures Reaches(LoadNew(h, b, r, direct))
  {
    hide NewSlot;
  }

  lemma LoadTriedReaches(h: Hasher, b: Book, r: Record)
    requires Reaches(b) && b.idCount !in b.infos
    ensures Reaches(LoadTried(h, b, r))
  {
    hide TriedSlot;
  }

  lemma {:induction false} LoadNewsReaches(h: Hasher, news: seq<Record>, n: nat, direct: bool)
    requires n <= |news|
    ensures Reaches(LoadNews(h, news, n, direct))
  {
    hide LoadNew, Fresh;
    if n > 0 {
      LoadNewsReaches(h, news, n - 1, direct);
      LoadNewsListed(h, news, n - 1, direct);
      LoadNewReaches(h, LoadNews(h, news, n - 1, direct), news[n - 1], direct);
    }
  }

  lemma {:induction false} LoadTriedsReaches(h: Hasher, b: Book, tried: seq<Record>, n: nat)
    requires n <= |tried| && ListOk(b) && b.idCount >= 0 && Fresh(b, b.idCount) && Reaches(b)
    ensures Reaches(LoadTrieds(h, b, tried, n))
  {
    hide LoadTried, Reaches, Fresh;
    if n > 0 {
      LoadTriedsReaches(h, b, tried, n - 1);
      LoadTriedsListed(h, b, tried, n - 1);
      LoadTriedReaches(h, LoadTrieds(h, b, tried, n - 1), tried[n - 1]);
    }
  }

  lemma SlotsReach(b: Book, c: Book)
    requires Reaches(b) && OnlySlots(b, c)
    ensures Reaches(c)
  {
    forall id | id in b.infos
      ensures id in c.infos && c.infos[id].who == b.infos[id].who
    {
      assert c.infos[id] == b.infos[id].(refCount := c.infos[id].refCount);
    }
    forall a | a in c.addrs
      ensures c.addrs[a] in c.infos && c.infos[c.addrs[a]].who.net == a
    {
      assert a in b.addrs && b.addrs[a] in b.infos;
    }
  }

  lemma TablesReach(f: File)
    requires Counting(f)
    ensures Reaches(Tables(f))
  {
    hide Reaches, ListOk, Fresh, LoadNews, LoadTrieds, LoadBuckets, OnlySlots, Usable;
    EntriesPlain(f);
    var b := LoadNews(f.key, f.news, |f.news|, !Usable(f));
    LoadNewsReaches(f.key, f.news, |f.news|, !Usable(f));
    LoadNewsListed(f.key, f.news, |f.news|, !Usable(f));
    LoadNewsFresh(f.key, f.news, |f.news|, !Usable(f));
    LoadTriedsReaches(f.key, b, f.tried, |f.tried|);
    LoadBucketsOnly(f.key, Entries(f), f.buckets, |f.buckets|, |f.news|);
    SlotsReach(Entries(f), LoadBuckets(f.key, Entries(f), f.buckets, |f.buckets|, |f.news|));
  }

  /** One of the first n entries has this address and no place. */
  ghost predicate Gone(b: Book, n: nat, a: NetAddr) {
    exists id :: 0 <= id < n && Homeless(b, id) && b.infos[id].who.net == a
  }

  ghost predicate PrunedTo(b: Book, n: nat, c: Book) {
    && (forall id {:trigger id in c.infos} {:trigger id in b.infos} ::
          id in c.infos <==> id in b.infos && !(0 <= id < n && Homeless(b, id)))
    && (forall id {:trigger id in c.infos} ::
         id in c.infos ==> c.infos[id] == b.infos[id].(randomPos := c.infos[id].randomPos))
    && (forall a {:trigger a in c.addrs} {:trigger a in b.addrs} :: a in c.addrs <==> a in b.addrs && !Gone(b, n, a))
    && (forall a {:trigger a in c.addrs} :: a in c.addrs ==> c.addrs[a] == b.addrs[a])
  }

  lemma GoneNext(b: Book, n: nat, a: NetAddr)
    ensures Gone(b, n + 1, a) <==> Gone(b, n, a) || (Homeless(b, n) && b.infos[n].who.net == a)
  {
    if Homeless(b, n) && b.infos[n].who.net == a {
      assert 0 <= n < n + 1;
    }
    if Gone(b, n, a) {
      var id :| 0 <= id < n && Homeless(b, id) && b.infos[id].who.net == a;
      assert id < n + 1;
    }
  }

  lemma DeleteIs(b: Book, id: int)
    requires Listed(b, id)
    ensures var c := Delete(b, id);
            && c.infos.Keys == b.infos.Keys - {id} && c.addrs == b.addrs - {b.infos[id].who.net}
            && forall x :: x in c.infos ==> c.infos[x] == b.infos[x].(randomPos := c.infos[x].randomPos)
  {
  }

  lemma PrunedNext(b: Book, n: nat, c: Book)
    requires PrunedTo(b, n, c)
    ensures Homeless(c, n) <==> Homeless(b, n)
    ensures !Homeless(b, n) ==> PrunedTo(b, n + 1, c)
    ensures Homeless(b, n) && Listed(c, n) ==> PrunedTo(b, n + 1, Delete(c, n))
  {
    hide Listed, Delete, Gone;
    forall a: NetAddr
      ensures Gone(b, n + 1, a) <==> Gone(b, n, a) || (Homeless(b, n) && b.infos[n].who.net == a)
    {
      GoneNext(b, n, a);
    }
    if Homeless(b, n) && Listed(c, n) {
      DeleteIs(c, n);
    }
  }

  lemma PruneNothing(b: Book)
    ensures PrunedTo(b, 0, b)
  {
  }

  lemma {:induction false} PruneIs(b: Book, n: nat)
    requires ListOk(b)
    ensures PrunedTo(b, n, Prune(b, n))
  {
    hide ListOk, Listed, Delete, PrunedTo;
    if n == 0 {
      PruneNothing(b);
    } else {
      PruneIs(b, n - 1);
      PruneListed(b, n - 1);
      PrunedNext(b, n - 1, Prune(b, n - 1));
      if Homeless(Prune(b, n - 1), n - 1) {
        DeleteListed(Prune(b, n - 1), n - 1);
      }
    }
  }

  /** No entry in a table shares its address. */
  ghost predicate Alone(b: Book) {
    forall x, y {:trigger b.infos[x], b.infos[y]} ::
      x in b.infos && y in b.infos && x != y && !Homeless(b, x) ==> b.infos[x].who.net != b.infos[y].who.net
  }

  lemma AloneIsFound(b: Book, c: Book)
    requires ListOk(b) && b.idCount >= 0 && Reaches(b) && PrunedTo(b, b.idCount, c) && Alone(b)
    ensures AddrOk(c.infos, c.addrs)
  {
    hide RandomOk;
    var n: nat := b.idCount;
    forall a | a in c.addrs
      ensures c.addrs[a] in c.infos && c.infos[c.addrs[a]].who.net == a
    {
      var x := b.addrs[a];
      assert a in b.addrs && x in b.infos;
      assert !Homeless(b, x);
    }
    forall id | id in c.infos
      ensures c.infos[id].who.net in c.addrs && c.addrs[c.infos[id].who.net] == id
    {
      var a := b.infos[id].who.net;
      assert id in b.infos && !Homeless(b, id);
      assert a in b.addrs && b.addrs[a] in b.infos;
      assert !Gone(b, n, a);
    }
  }

  lemma FoundIsAlone(b: Book, c: Book)
    requires ListOk(b) && b.idCount >= 0 && PrunedTo(b, b.idCount, c) && AddrOk(c.infos, c.addrs)
    ensures Alone(b)
  {
    hide RandomOk;
    var n: nat := b.idCount;
    forall x, y | x in b.infos && y in b.infos && x != y && !Homeless(b, x)
      ensures b.infos[x].who.net != b.infos[y].who.net
    {
      assert x in c.infos;
      var a := b.infos[x].who.net;
      assert a in c.addrs && !Gone(b, n, a);
      assert Homeless(b, y) && b.infos[y].who.net == a ==> Gone(b, n, a);
      assert !Homeless(b, y) ==> y in c.infos;
    }
  }

  lemma TimelyAre(b: Book, c: Book)
    requires ListOk(b) && b.idCount >= 0 && PrunedTo(b, b.idCount, c)
    ensures AllTimely(c.infos) <==>
            forall id :: id in b.infos && !Homeless(b, id) ==> Timely(b.infos[id].lastSuccess, b.infos[id].inTried)
  {
    hide Homeless, RandomOk, Timely, Gone;
    forall id | id in b.infos
      ensures id in c.infos <==> !Homeless(b, id)
      ensures id in c.infos ==>
                c.infos[id].lastSuccess == b.infos[id].lastSuccess && c.infos[id].inTried == b.infos[id].inTried
    {
    }
  }

  // ---------------------------------------------------------------- records and entries

  // Of the news and the first n tried records, by number: which became entries, and in which table.

  ghost predicate AddrTags(f: File, n: nat, addrs: map<NetAddr, int>)
    requires n <= |f.tried|
  {
    && (forall k: nat {:trigger k in addrs} :: k in addrs <==> k < |f.news| + n && Entered(f, k))
    && (forall k: nat {:trigger addrs[k]} :: k < |f.news| && k in addrs ==> addrs[k] == k)
  }

  ghost predicate InfoTags(f: File, infos: Infos) {
    forall id {:trigger id in infos} :: id in infos ==> (infos[id].inTried <==> infos[id].who.net >= |f.news|)
  }

  predicate Wanted(f: File, n: nat, t: Slot)
    requires n <= |f.tried|
  {
    exists j :: 0 <= j < n && TriedSlot(f.key, f.tried[j].who) == t
  }

  ghost predicate Tags(f: File, n: nat, c: Book)
    requires n <= |f.tried|
  {
    && AddrTags(f, n, c.addrs) && InfoTags(f, c.infos)
    && forall t {:trigger t in c.tried} :: t in c.tried <==> Wanted(f, n, t)
  }

  lemma {:induction false} NewsTags(h: Hasher, news: seq<Record>, n: nat, direct: bool)
    requires n <= |news|
    ensures var c := LoadNews(h, TaggedAll(news, 0), n, direct);
            && (forall k: nat :: k in c.addrs <==> k < n) && (forall k: nat :: k in c.addrs ==> c.addrs[k] == k)
            && c.tried == map[] && forall id :: id in c.infos ==> !c.infos[id].inTried && c.infos[id].who.net < n
  {
    hide NewSlot, LoadNews;
    if n == 0 {
      NewsStart(h, TaggedAll(news, 0), direct);
    } else {
      NewsTags(h, news, n - 1, direct);
      NewsStep(h, TaggedAll(news, 0), n - 1, direct);
    }
  }

  lemma WantedNext(f: File, n: nat, t: Slot)
    requires n < |f.tried|
    ensures Wanted(f, n + 1, t) <==> Wanted(f, n, t) || TriedSlot(f.key, f.tried[n].who) == t
    ensures Entered(f, |f.news| + n) <==> !Wanted(f, n, TriedSlot(f.key, f.tried[n].who))
  {
    hide TriedSlot;
    assert All(f)[|f.news| + n] == f.tried[n];
    if TriedSlot(f.key, f.tried[n].who) == t {
      assert n < n + 1;
    }
    if Wanted(f, n, t) {
      var j :| 0 <= j < n && TriedSlot(f.key, f.tried[j].who) == t;
      assert j < n + 1;
    }
  }

  lemma AddrTagsNext(f: File, n: nat, addrs: map<NetAddr, int>, id: int)
    requires n < |f.tried| && AddrTags(f, n, addrs)
    ensures !Entered(f, |f.news| + n) ==> AddrTags(f, n + 1, addrs)
    ensures Entered(f, |f.news| + n) ==> AddrTags(f, n + 1, addrs[|f.news| + n := id])
  {
    hide Entered;
  }

  lemma TriedTags(f: File, n: nat, c: Book)
    requires n < |f.tried| && Tags(f, n, c) && c.idCount >= 0
    ensures Tags(f, n + 1, LoadTried(Through(f.key, All(f)), c, Tagged(f.tried[n], |f.news| + n)))
  {
    hide TriedSlot, Through, AddrTags, Entered, Wanted, LoadTried;
    var k, h, r := |f.news| + n, f.key, f.tried[n];
    assert All(f)[k] == r;
    SameSlots(h, All(f), Service(k, 0), r.who, 0);
    forall t
      ensures Wanted(f, n + 1, t) <==> Wanted(f, n, t) || TriedSlot(h, r.who) == t
      ensures Entered(f, k) <==> !Wanted(f, n, TriedSlot(h, r.who))
    {
      WantedNext(f, n, t);
    }
    AddrTagsNext(f, n, c.addrs, c.idCount);
    if TriedSlot(h, r.who) in c.tried {
      LoadTriedSkips(Through(h, All(f)), c, Tagged(r, k));
    } else {
      LoadTriedIs(Through(h, All(f)), c, Tagged(r, k));
    }
  }

  lemma LoadTriedSkips(h: Hasher, c: Book, r: Record)
    requires TriedSlot(h, r.who) in c.tried
    ensures LoadTried(h, c, r) == c
  {
  }

  lemma NewsAreTags(f: File, direct: bool)
    ensures Tags(f, 0, LoadNews(Through(f.key, All(f)), TaggedAll(f.news, 0), |f.news|, direct))
  {
    hide Through, LoadNews;
    NewsTags(Through(f.key, All(f)), f.news, |f.news|, direct);
  }

  lemma {:induction false} TriedsTags(f: File, c: Book, n: nat)
    requires n <= |f.tried| && Tags(f, 0, c) && c.idCount >= 0 && Fresh(c, c.idCount)
    ensures Tags(f, n, LoadTrieds(Through(f.key, All(f)), c, TaggedAll(f.tried, |f.news|), n))
  {
    hide Tags, Through, LoadTried, Fresh;
    if n > 0 {
      TriedsTags(f, c, n - 1);
      LoadTriedsFresh(Through(f.key, All(f)), c, TaggedAll(f.tried, |f.news|), n - 1);
      TriedTags(f, n - 1, LoadTrieds(Through(f.key, All(f)), c, TaggedAll(f.tried, |f.news|), n - 1));
    }
  }

  lemma SlotsTags(f: File, b: Book, c: Book)
    requires Tags(f, |f.tried|, b) && OnlySlots(b, c)
    ensures Tags(f, |f.tried|, c)
  {
    hide Entered, Wanted;
    forall id | id in b.infos
      ensures c.infos[id].who == b.infos[id].who && c.infos[id].inTried == b.infos[id].inTried
    {
      assert c.infos[id] == b.infos[id].(refCount := c.infos[id].refCount);
    }
  }

  lemma TablesTags(f: File)
    requires Counting(f)
    ensures Tags(f, |f.tried|, Tables(Anonymous(f)))
  {
    hide Tags, Through, LoadNews, LoadTrieds, LoadBuckets, OnlySlots, Usable, Fresh;
    var g := Anonymous(f);
    EntriesPlain(g);
    NewsAreTags(f, !Usable(g));
    LoadNewsFresh(g.key, g.news, |g.news|, !Usable(g));
    TriedsTags(f, LoadNews(g.key, g.news, |g.news|, !Usable(g)), |f.tried|);
    LoadBucketsOnly(g.key, Entries(g), g.buckets, |g.buckets|, |g.news|);
    SlotsTags(f, Entries(g), LoadBuckets(g.key, Entries(g), g.buckets, |g.buckets|, |g.news|));
  }

  /** Entry id of book b comes from record k. */
  ghost predicate ComesFrom(f: File, b: Book, id: int, k: nat) {
    && k < |All(f)| && id in b.infos && b.infos[id].who == All(f)[k].who
    && b.infos[id].lastSuccess == All(f)[k].lastSuccess
    && (b.infos[id].inTried <==> k >= |f.news|) && (k < |f.news| ==> id == k)
  }

  /** Entry id has number k. */
  ghost predicate HasNumber(f: File, id: int, k: nat) {
    var c := Tables(Anonymous(f));
    k in c.addrs && c.addrs[k] == id && id in c.infos && c.infos[id].who.net == k
  }

  /** The entries are the records entered, one for one. */
  lemma EntryRecord(f: File, id: int) returns (k: nat)
    requires Accepted(f) && Counting(f) && id in Tables(f).infos
    ensures ComesFrom(f, Tables(f), id, k) && Entered(f, k) && HasNumber(f, id, k)
  {
    hide Tables, Through, Anonymous, Entered;
    NumbersFound(f);
    TablesTags(f);
    TablesTwin(f);
    var b, c := Tables(f), Tables(Anonymous(f));
    k := c.infos[id].who.net;
    assert TwinInfo(All(f), b.infos[id], c.infos[id]);
    assert k in c.addrs && c.addrs[k] == id;
  }

  lemma RecordEntry(f: File, k: nat) returns (id: int)
    requires Accepted(f) && Counting(f) && k < |All(f)| && Entered(f, k)
    ensures ComesFrom(f, Tables(f), id, k) && HasNumber(f, id, k)
  {
    hide Tables, Through, Anonymous, Entered;
    NumbersFound(f);
    TablesTags(f);
    TablesTwin(f);
    var b, c := Tables(f), Tables(Anonymous(f));
    id := c.addrs[k];
    assert id in c.infos && c.infos[id].who.net == k;
    assert TwinInfo(All(f), b.infos[id], c.infos[id]);
  }

  lemma NumbersFound(f: File)
    requires Accepted(f) && Counting(f)
    ensures AddrOk(Tables(Anonymous(f)).infos, Tables(Anonymous(f)).addrs)
  {
    hide TriedOk, NewOk, RefsOk, InfosOk, CountsOk, RandomOk, AddrOk, Anonymous, Clean, Accepted;
    AnonymousIsClean(f);
    TablesSound(Anonymous(f));
  }

  lemma PlacedIs(f: File, id: int, k: nat)
    requires Accepted(f) && Counting(f) && ComesFrom(f, Tables(f), id, k) && Entered(f, k)
    ensures Placed(f, k) <==> !Homeless(Tables(f), id)
  {
    hide Tables, Entered, FirstThere, Usable, Accepted;
    if k < |f.news| && !Usable(f) {
      DirectPlaces(f, k);
    }
  }

  /** The new records read so far hold the slots of those among them that were first there. */
  ghost predicate Direct(h: Hasher, news: seq<Record>, n: nat, b: Book)
    requires n <= |news|
  {
    && (forall s {:trigger s in b.news} :: s in b.news <==> exists j :: 0 <= j < n && SlotOf(h, news[j]) == s)
    && forall k {:trigger b.infos[k]} :: 0 <= k < n ==>
         k in b.infos && !b.infos[k].inTried && (b.infos[k].refCount == 0 <==> !FirstThere(h, news, k))
  }

  lemma LoadNewIs(h: Hasher, b: Book, r: Record)
    ensures var b', i, slotted := LoadNew(h, b, r, true), Loaded(r, |b.random|), SlotOf(h, r) !in b.news;
            && b'.infos == b.infos[b.idCount := if slotted then i.(refCount := 1) else i]
            && b'.news == if slotted then b.news[SlotOf(h, r) := b.idCount] else b.news
  {
    hide NewSlot;
  }

  lemma DirectNext(h: Hasher, news: seq<Record>, n: nat, b: Book)
    requires n < |news| && Direct(h, news, n, b) && b.idCount == n
    ensures Direct(h, news, n + 1, LoadNew(h, b, news[n], true))
  {
    hide NewSlot;
    assert FirstThere(h, news, n) <==> SlotOf(h, news[n]) !in b.news;
    var b' := LoadNew(h, b, news[n], true);
    LoadNewIs(h, b, news[n]);
    hide LoadNew, SlotOf, FirstThere;
    forall s
      ensures s in b'.news <==> exists j :: 0 <= j < n + 1 && SlotOf(h, news[j]) == s
    {
      if s in b.news {
        var j :| 0 <= j < n && SlotOf(h, news[j]) == s;
        assert 0 <= j < n + 1;
      } else if s == SlotOf(h, news[n]) {
        assert 0 <= n < n + 1;
      }
    }
  }

  lemma {:induction false} NewsDirect(h: Hasher, news: seq<Record>, n: nat)
    requires n <= |news|
    ensures Direct(h, news, n, LoadNews(h, news, n, true))
  {
    hide LoadNew, FirstThere, SlotOf, Fresh;
    if n > 0 {
      hide Direct;
      NewsDirect(h, news, n - 1);
      LoadNewsFresh(h, news, n - 1, true);
      DirectNext(h, news, n - 1, LoadNews(h, news, n - 1, true));
    }
  }

  /** Tried records leave the new entries alone. */
  lemma {:induction false} TriedsLeave(h: Hasher, b: Book, tried: seq<Record>, n: nat, k: int)
    requires n <= |tried| && b.idCount >= 0 && Fresh(b, b.idCount) && 0 <= k < b.idCount
    ensures k in b.infos && k in LoadTrieds(h, b, tried, n).infos && LoadTrieds(h, b, tried, n).infos[k] == b.infos[k]
  {
    hide LoadTried;
    if n > 0 {
      TriedsLeave(h, b, tried, n - 1, k);
      LoadTriedsFresh(h, b, tried, n - 1);
      TriedLeaves(h, LoadTrieds(h, b, tried, n - 1), tried[n - 1], k);
    }
  }

  lemma TriedLeaves(h: Hasher, b: Book, r: Record, k: int)
    requires k in b.infos && k != b.idCount
    ensures k in LoadTried(h, b, r).infos && LoadTried(h, b, r).infos[k] == b.infos[k]
  {
    hide TriedSlot;
  }

  lemma DirectPlaces(f: File, k: nat)
    requires Counting(f) && !Usable(f) && k < |f.news|
    ensures Homeless(Tables(f), k) <==> !FirstThere(f.key, f.news, k)
  {
    hide LoadNews, LoadTrieds, FirstThere, Usable, Fresh, SlotOf;
    EntriesPlain(f);
    NewsDirect(f.key, f.news, |f.news|);
    LoadNewsFresh(f.key, f.news, |f.news|, true);
    TriedsLeave(f.key, LoadNews(f.key, f.news, |f.news|, true), f.tried, |f.tried|, k);
  }

  /** What a file must say, in terms of its entries. */
  ghost predicate Settled(b: Book) {
    Alone(b) && forall id :: id in b.infos && !Homeless(b, id) ==> Timely(b.infos[id].lastSuccess, b.infos[id].inTried)
  }

  lemma CoherentIsSettled(f: File)
    requires Accepted(f) && Counting(f) && Coherent(f)
    ensures Settled(Tables(f))
  {
    hide Tables, Placed, Entered, Homeless, Accepted, Timely;
    var b := Tables(f);
    forall x | x in b.infos && !Homeless(b, x)
      ensures Timely(b.infos[x].lastSuccess, b.infos[x].inTried)
    {
      var k := EntryRecord(f, x);
      PlacedIs(f, x, k);
    }
    forall x, y | x in b.infos && y in b.infos && x != y && !Homeless(b, x)
      ensures b.infos[x].who.net != b.infos[y].who.net
    {
      var k := EntryRecord(f, x);
      PlacedIs(f, x, k);
      var j := EntryRecord(f, y);
      assert j != k;
    }
  }

  lemma SettledIsCoherent(f: File)
    requires Accepted(f) && Counting(f) && Settled(Tables(f))
    ensures Coherent(f)
  {
    hide Tables, Entered, Homeless, Accepted, Timely;
    var b := Tables(f);
    forall k | 0 <= k < |All(f)| && Placed(f, k)
      ensures Timely(All(f)[k].lastSuccess, k >= |f.news|)
      ensures forall j :: 0 <= j < |All(f)| && Entered(f, j) && j != k ==> All(f)[j].who.net != All(f)[k].who.net
    {
      var x := RecordEntry(f, k);
      PlacedIs(f, x, k);
      forall j | 0 <= j < |All(f)| && Entered(f, j) && j != k
        ensures All(f)[j].who.net != All(f)[k].who.net
      {
        var y := RecordEntry(f, j);
        assert x != y;
      }
    }
  }

  lemma CountingCase(f: File)
    requires Accepted(f) && Counting(f)
    ensures Ok(f.key, Read(f), {}, 0) <==> Coherent(f)
  {
    hide Ok, Twin, Through, Tables, Prune, Reaches, ListOk, Alone, Homeless, Timely, AllTimely, AddrOk, PrunedTo,
        Coherent, Accepted, Clean;
    AnonymousIsClean(f);
    CleanIsConsistent(Anonymous(f));
    ReadTwin(f);
    var b, c := Tables(f), Read(f);
    ButAddresses(f.key, All(f), c, Read(Anonymous(f)));
    TablesListed(f);
    TablesReach(f);
    PruneIs(b, b.idCount);
    TimelyAre(b, c);
    if Alone(b) {
      AloneIsFound(b, c);
    }
    if AddrOk(c.infos, c.addrs) {
      FoundIsAlone(b, c);
    }
    if Coherent(f) {
      CoherentIsSettled(f);
    }
    if Settled(b) {
      SettledIsCoherent(f);
    }
  }

  lemma DeleteCounts(b: Book, id: int)
    requires Listed(b, id)
    ensures Delete(b, id).nTried == b.nTried && Delete(b, id).nNew == b.nNew - 1
  {
  }

  lemma {:induction false} PruneCounts(b: Book, n: nat)
    ensures Prune(b, n).nTried == b.nTried && Prune(b, n).nNew <= b.nNew
  {
    hide Homeless, Listed, Delete;
    if n > 0 {
      PruneCounts(b, n - 1);
      if Listed(Prune(b, n - 1), n - 1) {
        DeleteCounts(Prune(b, n - 1), n - 1);
      }
    }
  }

  /** A negative count is still negative when all has been read. */
  lemma NegativeStays(f: File)
    requires Accepted(f)
    ensures f.nNew < 0 ==> Read(f).nNew < 0
    ensures f.nTried < 0 ==> Read(f).nTried < 0
  {
    hide LoadNews, LoadTrieds, LoadBuckets, Prune, Usable, Fresh;
    EntriesFresh(f);
    NewsCount(f.key, f.news, |f.news|, !Usable(f));
    TriedsStart(f.key, NewEntries(f), f.tried);
    LoadBucketsOnly(f.key, Entries(f), f.buckets, |f.buckets|, |f.news|);
    PruneCounts(Tables(f), Times(Tables(f).idCount));
  }

  lemma CountsAreNatural(h: Hasher, b: Book)
    requires Ok(h, b, {}, 0)
    ensures b.nNew >= 0 && b.nTried >= 0
  {
    hide Ok, Tried;
    Counted(h, b);
    TriedAmong(b.infos);
  }

  lemma TriedAmong(infos: Infos)
    ensures |Tried(infos)| <= |infos|
  {
    assert Tried(infos) <= infos.Keys;
    SubsetSize(Tried(infos), infos.Keys);
  }

  /** An accepted file is read into a consistent manager if and only if it announces no negative count and
      is coherent. */
  lemma ReadIsConsistent(f: File)
    requires Accepted(f)
    ensures Ok(f.key, Read(f), {}, 0) <==> f.nNew >= 0 && f.nTried >= 0 && Coherent(f)
  {
    hide Ok, Read, Coherent, Accepted;
    if Counting(f) {
      CountingCase(f);
    } else {
      NegativeStays(f);
      if Ok(f.key, Read(f), {}, 0) {
        CountsAreNatural(f.key, Read(f));
      }
    }
  }

  /** Nothing is pruned then, and the counter stays as announced. */
  lemma NegativeReads(f: File)
    requires Accepted(f) && f.nNew < 0
    ensures Read(f) == Tables(f) && Read(f).nNew == f.nNew
  {
    hide Prune, LoadNews, LoadTrieds, LoadBuckets, Fresh, Flip, Entries, Usable;
    NothingNew(f);
    PruneNone(Tables(f), Times(Tables(f).idCount));
    EntriesFresh(f);
    LoadBucketsOnly(f.key, Entries(f), f.buckets, |f.buckets|, |f.news|);
  }

  /** A file that announces -1 new entries and has no others is accepted, and the counter stays at -1. */
  lemma NegativeIsAccepted(h: Hasher)
    ensures var f := File(1, h, -1, 0, Flip(0), [], [], []);
            Accepted(f) && Coherent(f) && Read(f).nNew == -1 && !Ok(h, Read(f), {}, 0)
  {
    var f := File(1, h, -1, 0, Flip(0), [], [], []);
    hide Ok, Read, Coherent, Accepted;
    NoRecords(f);
    ReadIsConsistent(f);
    NegativeReads(f);
  }

  lemma NoRecords(f: File)
    requires f == File(1, f.key, -1, 0, Flip(0), [], [], [])
    ensures Accepted(f) && Coherent(f)
  {
    hide Placed, Entered;
    assert All(f) == [];
  }

  /** Files in which no address occurs twice are coherent ... */
  lemma CleanIsCoherent(f: File)
    requires Accepted(f) && Clean(f)
    ensures Coherent(f)
  {
    hide Ok, Read, Coherent, Clean, Accepted;
    CleanIsConsistent(f);
    ReadIsConsistent(f);
  }

  /** ... but not only those: a tried record that is repeated is dropped. */
  lemma RepeatedIsCoherent(h: Hasher, r: Record)
    requires r.lastSuccess > 0
    ensures var f := File(1, h, 0, 2, Flip(0), [], [r, r], []); Accepted(f) && Coherent(f) && !Clean(f)
  {
    hide TriedSlot, Tables;
    var f := File(1, h, 0, 2, Flip(0), [], [r, r], []);
    assert All(f) == [r, r];
    assert f.tried[0] == f.tried[1] == r;
    assert !Entered(f, 1);
  }

  /** The same record as a new and as a tried one: two entries, of which the address finds one. */
  lemma SharedIsIncoherent(h: Hasher, r: Record)
    ensures var f := File(1, h, 1, 1, Flip(0), [r], [r], []); Accepted(f) && !Coherent(f)
  {
    hide TriedSlot, Tables;
    var f := File(1, h, 1, 1, Flip(0), [r], [r], []);
    assert All(f) == [r, r];
    assert Placed(f, 1) && Entered(f, 0);
  }
}
