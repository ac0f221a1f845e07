/** peers.dat: what CAddrMan writes to disk and how it is read back. */
module AddrFile {
  import opened AddrBook
  import opened AddrMan

  /** What is written of an entry; the rest is in memory only. */
  datatype Record = Record(who: Service, source: NetAddr, time: int, services: bv64, lastSuccess: int, attempts: int)

  /** The stream, field by field: `news` and `tried` hold as many records as the counts announce. */
  datatype File = File(
    version: nat, key: Hasher, nNew: int, nTried: int, nUBuckets: int,
    news: seq<Record>, tried: seq<Record>, buckets: seq<seq<int>>)

  const EMPTY := Book(map[], map[], [], map[], map[], 0, 0, 0)

  function Kept(i: Info): Record { Record(i.who, i.source, i.time, i.services, i.lastSuccess, i.attempts) }

  function Loaded(r: Record, randomPos: int): Info {
    Info(r.who, r.source, r.time, r.services, 0, 0, r.lastSuccess, r.attempts, 0, false, randomPos)
  }

  /** Bit 30. */
  const FLAG := 0x4000_0000

  /** Marks the bucket count so that the oldest readers refuse the file: bit 30 is inverted. */
  function Flip(x: int): int { if x / FLAG % 2 == 1 then x - FLAG else x + FLAG }

  /** Bit 30 changes, and no other: neither those below nor those above. */
  lemma FlipIs(x: int)
    ensures Flip(x) % 1073741824 == x % 1073741824 && Flip(x) / 2147483648 == x / 2147483648 && Flip(x) != x
    ensures Flip(Flip(x)) == x
  {
    var a, b := x / 2147483648, x % 2147483648;
    if b < FLAG {
      assert x / FLAG == 2 * a && x % FLAG == b;
      assert (x + FLAG) / FLAG == 2 * a + 1;
    } else {
      assert x / FLAG == 2 * a + 1 && x % FLAG == b - FLAG;
      assert (x - FLAG) / FLAG == 2 * a;
    }
  }

  function BucketCount(f: File): int { if f.version != 0 then Flip(f.nUBuckets) else f.nUBuckets }

  /** Whether the positions in the new table can be taken from the file. */
  predicate Usable(f: File) { f.version == 1 && BucketCount(f) == NEW_BUCKET_COUNT }

  // ---------------------------------------------------------------- reading

  function LoadNew(h: Hasher, b: Book, r: Record, direct: bool): Book {
    var b1 := Added(b, Loaded(r, |b.random|));
    var s := NewSlot(h, r.who, r.source);
    if direct && s !in b.news then Enslot(b1, s, b.idCount) else b1
  }

  function LoadNews(h: Hasher, records: seq<Record>, n: nat, direct: bool): Book
    requires n <= |records|
  {
    if n == 0 then EMPTY else LoadNew(h, LoadNews(h, records, n - 1, direct), records[n - 1], direct)
  }

  function LoadTried(h: Hasher, b: Book, r: Record): Book {
    if TriedSlot(h, r.who) in b.tried then b
    else
      var b1 := Promoted(h, Added(b, Loaded(r, |b.random|)).(nNew := b.nNew), b.idCount);
      // A slot that holds -1 is an empty one.
      if b.idCount == -1 then b1.(tried := b.tried) else b1
  }

  function LoadTrieds(h: Hasher, b: Book, records: seq<Record>, n: nat): Book
    requires n <= |records|
  {
    if n == 0 then b else LoadTried(h, LoadTrieds(h, b, records, n - 1), records[n - 1])
  }

  function LoadIndex(h: Hasher, b: Book, bucket: nat, index: int, nNew: int): Book {
    if 0 <= index < nNew && index in b.infos && SlotIn(h, bucket, b.infos[index].who) !in b.news
       && b.infos[index].refCount < NEW_BUCKETS_PER_ADDRESS
    then Enslot(b, SlotIn(h, bucket, b.infos[index].who), index)
    else b
  }

  function LoadBucket(h: Hasher, b: Book, bucket: nat, indexes: seq<int>, nNew: int): Book {
    if indexes == [] then b
    else
      var last := |indexes| - 1;
      LoadIndex(h, LoadBucket(h, b, bucket, indexes[..last], nNew), bucket, indexes[last], nNew)
  }

  function LoadBuckets(h: Hasher, b: Book, buckets: seq<seq<int>>, n: nat, nNew: int): Book
    requires n <= |buckets|
  {
    if n == 0 then b
    else LoadBucket(h, LoadBuckets(h, b, buckets, n - 1, nNew), n - 1, buckets[n - 1], nNew)
  }

  /** The entry has no slot anywhere. */
  predicate Homeless(b: Book, id: int) { id in b.infos && !b.infos[id].inTried && b.infos[id].refCount == 0 }

  function Prune(b: Book, n: nat): Book {
    if n == 0 then b
    else
      var b1 := Prune(b, n - 1);
      if Homeless(b1, n - 1) && Listed(b1, n - 1) then Delete(b1, n - 1) else b1
  }

  /** How often a loop from 0 to n runs. */
  function Times(n: int): nat { if n < 0 then 0 else n }

  /** What is left of an announced count when its loop has run. */
  function Short(n: int): int { n - Times(n) }

  /** The new records; ids go on from the announced count. */
  function NewEntries(f: File): Book {
    var b := LoadNews(f.key, f.news, |f.news|, !Usable(f));
    b.(nNew := b.nNew + Short(f.nNew), idCount := b.idCount + Short(f.nNew))
  }

  function Entries(f: File): Book {
    var b := LoadTrieds(f.key, NewEntries(f), f.tried, |f.tried|);
    b.(nTried := b.nTried + Short(f.nTried))
  }

  function Tables(f: File): Book {
    if Usable(f) then LoadBuckets(f.key, Entries(f), f.buckets, |f.buckets|, |f.news|) else Entries(f)
  }

  function Read(f: File): Book { Prune(Tables(f), Times(Tables(f).idCount)) }

  /** The counts are within the size of the tables, and all records that they announce are there. */
  predicate Accepted(f: File) {
    && f.nNew <= NEW_BUCKET_COUNT * BUCKET_SIZE && f.nTried <= TRIED_BUCKET_COUNT * BUCKET_SIZE
    && |f.news| == Times(f.nNew) && |f.tried| == Times(f.nTried) && |f.buckets| == Times(BucketCount(f))
  }

  predicate Counting(f: File) { f.nNew >= 0 && f.nTried >= 0 }

  lemma EntriesPlain(f: File)
    requires f.nNew >= 0
    ensures NewEntries(f) == LoadNews(f.key, f.news, |f.news|, !Usable(f))
    ensures f.nTried >= 0 ==> Entries(f) == LoadTrieds(f.key, NewEntries(f), f.tried, |f.tried|)
  {
    hide LoadNews, LoadTrieds, Usable;
  }

  // ---------------------------------------------------------------- any file

  predicate Distinct(records: seq<Record>) {
    forall i, j :: 0 <= i < j < |records| ==> records[i].who.net != records[j].who.net
  }

  /** No count is negative, no address occurs twice, and times of success are as they should be. */
  predicate Clean(f: File) {
    && Counting(f) && Distinct(f.news + f.tried)
    && (forall i :: 0 <= i < |f.news| ==> f.news[i].lastSuccess >= 0)
    && (forall i :: 0 <= i < |f.tried| ==> f.tried[i].lastSuccess > 0)
  }

  function Unplaced(b: Book): set<int> { set id | id in b.infos && Homeless(b, id) }

  /** Consistent, but for entries that are in no table. */
  ghost predicate Sound(h: Hasher, b: Book) { Ok(h, b, Unplaced(b), 0) }

  lemma LooseAre(h: Hasher, b: Book, loose: set<int>)
    requires Ok(h, b, loose, 0)
    ensures Sound(h, b)
  {
    hide AddrOk, TriedOk, NewOk, RefsOk, CountsOk, RandomOk;
    forall id | id in b.infos
      ensures id in loose <==> id in Unplaced(b)
    {
      assert InfoOk(b.infos[id], id in loose);
    }
    assert loose == Unplaced(b);
  }

  /** Every address in the book is that of one of the first n records. */
  ghost predicate From(b: Book, records: seq<Record>, n: nat)
    requires n <= |records|
  {
    forall a {:trigger a in b.addrs} :: a in b.addrs ==> exists i :: 0 <= i < n && records[i].who.net == a
  }

  lemma EmptySound(h: Hasher)
    ensures Sound(h, EMPTY)
  {
    assert Tried(EMPTY.infos) == {};
    assert Unplaced(EMPTY) == {};
  }

  lemma LoadNewSound(h: Hasher, b: Book, r: Record, direct: bool)
    requires Sound(h, b) && r.who.net !in b.addrs && r.lastSuccess >= 0
    ensures Sound(h, LoadNew(h, b, r, direct)) && LoadNew(h, b, r, direct).addrs == b.addrs[r.who.net := b.idCount]
  {
    hide Ok, NewSlot, SlotIn;
    var i := Loaded(r, |b.random|);
    AddedKeeps(h, b, Unplaced(b), 0, i);
    var b1, s := Added(b, i), NewSlot(h, r.who, r.source);
    LooseAre(h, b1, Unplaced(b) + {b.idCount});
    if direct && s !in b.news {
      EnslotOk(h, b1, Unplaced(b1), 0, s, b.idCount);
      LooseAre(h, Enslot(b1, s, b.idCount), Unplaced(b1) - {b.idCount});
    }
  }

  lemma {:induction false} LoadNewsSound(h: Hasher, news: seq<Record>, all: seq<Record>, n: nat, direct: bool)
    requires n <= |news| && news <= all && Distinct(all) && forall i :: 0 <= i < |news| ==> news[i].lastSuccess >= 0
    ensures var b := LoadNews(h, news, n, direct); Sound(h, b) && From(b, all, n)
  {
    hide Sound, LoadNew;
    if n == 0 {
      EmptySound(h);
    } else {
      LoadNewsSound(h, news, all, n - 1, direct);
      var b, r := LoadNews(h, news, n - 1, direct), all[n - 1];
      assert r.who.net !in b.addrs;
      LoadNewSound(h, b, r, direct);
    }
  }

  lemma UncountOne(h: Hasher, b: Book, loose: set<int>)
    requires Ok(h, b, loose, 0)
    ensures Ok(h, b.(nNew := b.nNew - 1), loose, 1)
  {
    hide AddrOk, TriedOk, NewOk, RefsOk, InfosOk, RandomOk;
  }

  lemma IdsCounted(h: Hasher, b: Book, loose: set<int>)
    requires Ok(h, b, loose, 0)
    ensures b.idCount >= 0
  {
    hide AddrOk, TriedOk, NewOk, RefsOk, CountsOk, RandomOk;
  }

  lemma LoadTriedSound(h: Hasher, b: Book, r: Record)
    requires Sound(h, b) && r.who.net !in b.addrs && r.lastSuccess > 0
    ensures Sound(h, LoadTried(h, b, r))
    ensures LoadTried(h, b, r).addrs.Keys <= b.addrs.Keys + {r.who.net}
  {
    hide Ok, TriedSlot;
    if TriedSlot(h, r.who) !in b.tried {
      IdsCounted(h, b, Unplaced(b));
      var i := Loaded(r, |b.random|);
      AddedKeeps(h, b, Unplaced(b), 0, i);
      var b1, loose := Added(b, i), Unplaced(b) + {b.idCount};
      UncountOne(h, b1, loose);
      assert b1.(nNew := b1.nNew - 1) == b1.(nNew := b.nNew);
      PromotedKeeps(h, b1.(nNew := b.nNew), loose, 1, b.idCount);
      LooseAre(h, LoadTried(h, b, r), loose - {b.idCount});
    }
  }

  lemma {:induction false} LoadTriedsSound(h: Hasher, b: Book, tried: seq<Record>, all: seq<Record>, k: nat, n: nat)
    requires n <= |tried| && k + |tried| == |all| && all[k..] == tried && Distinct(all) && Sound(h, b)
             && From(b, all, k)
    requires forall i :: 0 <= i < |tried| ==> tried[i].lastSuccess > 0
    ensures var b' := LoadTrieds(h, b, tried, n); Sound(h, b') && From(b', all, k + n)
  {
    hide Sound, LoadTried;
    if n > 0 {
      LoadTriedsSound(h, b, tried, all, k, n - 1);
      var b1, r := LoadTrieds(h, b, tried, n - 1), all[k + n - 1];
      assert r == tried[n - 1];
      assert r.who.net !in b1.addrs;
      LoadTriedSound(h, b1, r);
    }
  }

  /** The entries below n are there and not tried. */
  predicate Fresh(b: Book, n: int) { forall id :: 0 <= id < n ==> id in b.infos && !b.infos[id].inTried }

  lemma LoadIndexSound(h: Hasher, b: Book, bucket: nat, index: int, nNew: int)
    requires Sound(h, b) && Fresh(b, nNew) && bucket < NEW_BUCKET_COUNT
    ensures Sound(h, LoadIndex(h, b, bucket, index, nNew)) && Fresh(LoadIndex(h, b, bucket, index, nNew), nNew)
  {
    hide Ok, Unplaced;
    var b' := LoadIndex(h, b, bucket, index, nNew);
    if b' != b {
      var s := SlotIn(h, bucket, b.infos[index].who);
      EnslotOk(h, b, Unplaced(b), 0, s, index);
      LooseAre(h, b', Unplaced(b) - {index});
    }
  }

  lemma {:induction false} LoadBucketSound(h: Hasher, b: Book, bucket: nat, indexes: seq<int>, nNew: int)
    requires Sound(h, b) && Fresh(b, nNew) && bucket < NEW_BUCKET_COUNT
    ensures var b' := LoadBucket(h, b, bucket, indexes, nNew); Sound(h, b') && Fresh(b', nNew)
  {
    hide Sound, Fresh, LoadIndex;
    if indexes != [] {
      var last := |indexes| - 1;
      LoadBucketSound(h, b, bucket, indexes[..last], nNew);
      LoadIndexSound(h, LoadBucket(h, b, bucket, indexes[..last], nNew), bucket, indexes[last], nNew);
    }
  }

  lemma {:induction false} LoadBucketsSound(h: Hasher, b: Book, buckets: seq<seq<int>>, n: nat, nNew: int)
    requires Sound(h, b) && Fresh(b, nNew) && n <= |buckets| <= NEW_BUCKET_COUNT
    ensures var b' := LoadBuckets(h, b, buckets, n, nNew); Sound(h, b') && Fresh(b', nNew)
  {
    hide Sound, Fresh, LoadBucket;
    if n > 0 {
      LoadBucketsSound(h, b, buckets, n - 1, nNew);
      LoadBucketSound(h, LoadBuckets(h, b, buckets, n - 1, nNew), n - 1, buckets[n - 1], nNew);
    }
  }

  lemma {:induction false} LoadNewsFresh(h: Hasher, news: seq<Record>, n: nat, direct: bool)
    requires n <= |news|
    ensures var b := LoadNews(h, news, n, direct); b.idCount == n && Fresh(b, n)
  {
    hide NewSlot;
    if n > 0 {
      LoadNewsFresh(h, news, n - 1, direct);
    }
  }

  lemma {:induction false} LoadTriedsFresh(h: Hasher, b: Book, tried: seq<Record>, n: nat)
    requires n <= |tried| && b.idCount >= 0 && Fresh(b, b.idCount)
    ensures var b' := LoadTrieds(h, b, tried, n); b'.idCount >= b.idCount && Fresh(b', b.idCount)
  {
    hide TriedSlot;
    if n > 0 {
      LoadTriedsFresh(h, b, tried, n - 1);
    }
  }

  /** Pruning removes the entries without a slot. */
  lemma {:induction false} PruneSound(h: Hasher, b: Book, n: nat)
    requires Sound(h, b)
    ensures var b' := Prune(b, n);
            Sound(h, b') && b'.idCount == b.idCount && forall id :: 0 <= id < n ==> !Homeless(b', id)
  {
    hide Ok, Listed, Delete;
    if n > 0 {
      PruneSound(h, b, n - 1);
      var b1 := Prune(b, n - 1);
      if Homeless(b1, n - 1) {
        DeleteKeeps(h, b1, Unplaced(b1), 0, n - 1);
        var b2 := Delete(b1, n - 1);
        LooseAre(h, b2, Unplaced(b1) - {n - 1});
        DeleteFaces(h, b1, n - 1);
      }
    }
  }

  lemma DeleteFaces(h: Hasher, b: Book, id: int)
    requires Listed(b, id) && OnlyMoved(b.infos - {id}, Delete(b, id).infos)
    ensures Delete(b, id).idCount == b.idCount
            && forall other :: Homeless(Delete(b, id), other) ==> Homeless(b, other) && other != id
  {
    var b' := Delete(b, id);
    forall other | Homeless(b', other)
      ensures Homeless(b, other) && other != id
    {
      assert other in (b.infos - {id}).Keys;
    }
  }

  lemma AllPlaced(h: Hasher, b: Book)
    requires Sound(h, b) && forall id :: 0 <= id < b.idCount ==> !Homeless(b, id)
    ensures Ok(h, b, {}, 0)
  {
    hide AddrOk, TriedOk, NewOk, RefsOk, CountsOk, RandomOk;
    assert Unplaced(b) == {};
  }

  lemma EntriesSound(f: File)
    requires Clean(f)
    ensures Sound(f.key, Entries(f)) && Fresh(Entries(f), |f.news|)
  {
    hide Sound, Fresh, LoadNews, LoadTrieds, Usable;
    EntriesPlain(f);
    var all, news := f.news + f.tried, LoadNews(f.key, f.news, |f.news|, !Usable(f));
    LoadNewsSound(f.key, f.news, all, |f.news|, !Usable(f));
    LoadNewsFresh(f.key, f.news, |f.news|, !Usable(f));
    assert all[|f.news|..] == f.tried;
    LoadTriedsSound(f.key, news, f.tried, all, |f.news|, |f.tried|);
    LoadTriedsFresh(f.key, news, f.tried, |f.tried|);
  }

  lemma TablesSound(f: File)
    requires Clean(f) && Accepted(f)
    ensures Sound(f.key, Tables(f))
  {
    hide Sound, Fresh, Entries, LoadBuckets, Clean, BucketCount;
    EntriesSound(f);
    if Usable(f) {
      LoadBucketsSound(f.key, Entries(f), f.buckets, |f.buckets|, |f.news|);
    }
  }

  /** A file without repeated addresses is read into a consistent manager, whatever else it says. */
  lemma CleanIsConsistent(f: File)
    requires Clean(f) && Accepted(f)
    ensures Ok(f.key, Read(f), {}, 0)
  {
    hide Ok, Sound, Tables, Prune, Clean, Accepted;
    TablesSound(f);
    var b := Tables(f);
    var n := Times(b.idCount);
    PruneSound(f.key, b, n);
    AllPlaced(f.key, Prune(b, n));
  }

  // ---------------------------------------------------------------- writing

  /** Which entries are written to the first and to the second list of records. */
  predicate Picked(i: Info, tried: bool) { if tried then i.inTried else i.refCount != 0 }

  /** Their ids below n, in order. */
  function Ids(infos: Infos, tried: bool, n: nat): (ids: seq<int>)
    ensures forall k :: 0 <= k < |ids| ==> 0 <= ids[k] < n && ids[k] in infos && Picked(infos[ids[k]], tried)
    ensures forall j, k :: 0 <= j < k < |ids| ==> ids[j] < ids[k]
  {
    if n == 0 then []
    else if n - 1 in infos && Picked(infos[n - 1], tried) then Ids(infos, tried, n - 1) + [n - 1]
    else Ids(infos, tried, n - 1)
  }

  /** Which record of its list an entry is. */
  function Rank(infos: Infos, tried: bool, id: int): nat { |Ids(infos, tried, if id < 0 then 0 else id)| }

  function RecordsOf(infos: Infos, ids: seq<int>): (r: seq<Record>)
    requires forall k :: 0 <= k < |ids| ==> ids[k] in infos
    ensures |r| == |ids| && forall k :: 0 <= k < |r| ==> r[k] == Kept(infos[ids[k]])
  {
    seq(|ids|, k requires 0 <= k < |ids| => Kept(infos[ids[k]]))
  }

  /** The numbers of the entries at the first p positions of a bucket. */
  function Indexes(infos: Infos, news: map<Slot, int>, bucket: nat, p: nat): seq<int> {
    if p == 0 then []
    else if Slot(bucket, p - 1) in news then
        Indexes(infos, news, bucket, p - 1) + [Rank(infos, false, news[Slot(bucket, p - 1)])]
    else Indexes(infos, news, bucket, p - 1)
  }

  function AllIndexes(infos: Infos, news: map<Slot, int>, n: nat): (r: seq<seq<int>>)
    ensures |r| == n && forall bucket :: 0 <= bucket < n ==> r[bucket] == Indexes(infos, news, bucket, BUCKET_SIZE)
  {
    seq(n, bucket requires 0 <= bucket < n => Indexes(infos, news, bucket, BUCKET_SIZE))
  }

  function Records(infos: Infos, tried: bool, n: nat): seq<Record> { RecordsOf(infos, Ids(infos, tried, n)) }

  function Written(h: Hasher, b: Book): File
    requires b.idCount >= 0
  {
    File(1, h, b.nNew, b.nTried, Flip(NEW_BUCKET_COUNT),
      Records(b.infos, false, b.idCount), Records(b.infos, true, b.idCount),
        AllIndexes(b.infos, b.news, NEW_BUCKET_COUNT))
  }

  /** The id an entry gets when the file is read. */
  function Renamed(b: Book, id: int): int
    requires b.idCount >= 0 && id in b.infos
  {
    if b.infos[id].inTried then |Ids(b.infos, false, b.idCount)| + Rank(b.infos, true, id) else Rank(b.infos, false, id)
  }

  lemma {:induction false} IdsPrefix(infos: Infos, tried: bool, m: nat, n: nat)
    requires m <= n
    ensures Ids(infos, tried, m) <= Ids(infos, tried, n)
  {
    hide Picked;
    if m < n {
      IdsPrefix(infos, tried, m, n - 1);
    }
  }

  /** Every entry is found in its list at its rank. */
  lemma RankIs(infos: Infos, tried: bool, id: int, n: nat)
    requires 0 <= id < n && id in infos && Picked(infos[id], tried)
    ensures Rank(infos, tried, id) < |Ids(infos, tried, n)| && Ids(infos, tried, n)[Rank(infos, tried, id)] == id
  {
    hide Picked;
    IdsPrefix(infos, tried, id + 1, n);
    assert Ids(infos, tried, id + 1) == Ids(infos, tried, id) + [id];
    assert Ids(infos, tried, id + 1)[Rank(infos, tried, id)] == id;
  }

  lemma RankOf(infos: Infos, tried: bool, k: nat, n: nat)
    requires k < |Ids(infos, tried, n)|
    ensures Rank(infos, tried, Ids(infos, tried, n)[k]) == k
  {
    var id := Ids(infos, tried, n)[k];
    RankIs(infos, tried, id, n);
    hide Ids, Rank;
    var r := Rank(infos, tried, id);
    assert !(r < k) && !(k < r);
  }

  lemma {:induction false} IdsCount(infos: Infos, tried: bool, n: nat)
    ensures |Ids(infos, tried, n)| == |set id | id in infos && 0 <= id < n && Picked(infos[id], tried)|
  {
    hide Picked;
    var all := set id | id in infos && 0 <= id < n && Picked(infos[id], tried);
    if n == 0 {
      assert all == {};
    } else {
      IdsCount(infos, tried, n - 1);
      var less := set id | id in infos && 0 <= id < n - 1 && Picked(infos[id], tried);
      if n - 1 in infos && Picked(infos[n - 1], tried) {
        assert all == less + {n - 1};
      } else {
        assert all == less;
      }
    }
  }

  /** In a consistent book an entry is in exactly one of the two lists. */
  lemma OneList(h: Hasher, b: Book)
    requires Ok(h, b, {}, 0)
    ensures b.idCount >= 0
    ensures forall id ::
              id in b.infos ==> 0 <= id < b.idCount && (Picked(b.infos[id], false) <==> !Picked(b.infos[id], true))
  {
    hide AddrOk, TriedOk, NewOk, RefsOk, RandomOk, CountsOk;
    forall id | id in b.infos
      ensures 0 <= id < b.idCount && (b.infos[id].refCount != 0 <==> !b.infos[id].inTried)
    {
      assert InfoOk(b.infos[id], false);
    }
  }

  lemma Counted(h: Hasher, b: Book)
    requires Ok(h, b, {}, 0)
    ensures CountsOk(b.infos, b.nTried, b.nNew, 0)
  {
    hide AddrOk, TriedOk, NewOk, RefsOk, RandomOk, InfosOk, CountsOk;
  }

  /** The counters announce as many records as there are. */
  lemma CountsAnnounce(h: Hasher, b: Book)
    requires Ok(h, b, {}, 0)
    ensures b.idCount >= 0 && |Ids(b.infos, false, b.idCount)| == b.nNew && |Ids(b.infos, true, b.idCount)| == b.nTried
  {
    hide Ok, Ids;
    OneList(h, b);
    Counted(h, b);
    IdsCount(b.infos, false, b.idCount);
    IdsCount(b.infos, true, b.idCount);
    var news := set id | id in b.infos && 0 <= id < b.idCount && Picked(b.infos[id], false);
    var tried := set id | id in b.infos && 0 <= id < b.idCount && Picked(b.infos[id], true);
    assert tried == Tried(b.infos);
    assert news == b.infos.Keys - Tried(b.infos);
  }

  /** No table is fuller than it can be, so the limits of the reader admit every file. */
  lemma {:induction false} SlotsFew(slots: set<Slot>, n: nat)
    requires forall s :: s in slots ==> s.pos < BUCKET_SIZE && s.bucket * BUCKET_SIZE + s.pos < n
    ensures |slots| <= n
  {
    if n == 0 {
      assert forall s :: s !in slots;
      assert slots == {};
    } else {
      var last := Slot((n - 1) / BUCKET_SIZE, (n - 1) % BUCKET_SIZE);
      forall s | s in slots && s != last
        ensures s.bucket * BUCKET_SIZE + s.pos < n - 1
      {
        var code := s.bucket * BUCKET_SIZE + s.pos;
        assert s.bucket == code / BUCKET_SIZE && s.pos == code % BUCKET_SIZE;
      }
      SlotsFew(slots - {last}, n - 1);
      assert last !in slots ==> slots - {last} == slots;
    }
  }

  lemma {:induction false} ValuesFew(ids: set<int>, table: map<Slot, int>)
    requires forall id :: id in ids ==> exists s :: s in table && table[s] == id
    ensures |ids| <= |table.Keys|
  {
    EmptyOrNot(ids);
    if ids != {} {
      var id :| id in ids;
      var s :| s in table && table[s] == id;
      forall other | other in ids - {id}
        ensures exists t :: t in table - {s} && (table - {s})[t] == other
      {
        var t :| t in table && table[t] == other;
        assert t in table - {s} && (table - {s})[t] == other;
      }
      ValuesFew(ids - {id}, table - {s});
      assert (table - {s}).Keys == table.Keys - {s};
    }
  }

  lemma TriedFew(h: Hasher, b: Book)
    requires Ok(h, b, {}, 0)
    ensures b.nTried <= TRIED_BUCKET_COUNT * BUCKET_SIZE
  {
    hide AddrOk, NewOk, RefsOk, RandomOk, InfosOk;
    forall id | id in Tried(b.infos)
      ensures exists t :: t in b.tried && b.tried[t] == id
    {
      assert TriedSlot(h, b.infos[id].who) in b.tried && b.tried[TriedSlot(h, b.infos[id].who)] == id;
    }
    ValuesFew(Tried(b.infos), b.tried);
    SlotsFew(b.tried.Keys, TRIED_BUCKET_COUNT * BUCKET_SIZE);
  }

  lemma NewFew(h: Hasher, b: Book)
    requires Ok(h, b, {}, 0)
    ensures b.nNew <= NEW_BUCKET_COUNT * BUCKET_SIZE
  {
    hide AddrOk, TriedOk, RefsOk, RandomOk, InfosOk;
    var ids := b.infos.Keys - Tried(b.infos);
    forall id | id in ids
      ensures exists s :: s in b.news && b.news[s] == id
    {
      NewHasSlot(h, b, id);
      var k :| k in Occurs(h, b.news, id, b.infos[id].who);
      assert SlotIn(h, k, b.infos[id].who) in b.news && b.news[SlotIn(h, k, b.infos[id].who)] == id;
    }
    ValuesFew(ids, b.news);
    SlotsFew(b.news.Keys, NEW_BUCKET_COUNT * BUCKET_SIZE);
    assert Tried(b.infos) <= b.infos.Keys;
  }

  lemma WrittenAccepted(h: Hasher, b: Book)
    requires Ok(h, b, {}, 0)
    ensures b.idCount >= 0 && Accepted(Written(h, b)) && Usable(Written(h, b))
  {
    hide Ok, Ids, Indexes;
    CountsAnnounce(h, b);
    TriedFew(h, b);
    NewFew(h, b);
    assert Flip(Flip(NEW_BUCKET_COUNT)) == NEW_BUCKET_COUNT;
  }

  lemma AddressesDiffer(h: Hasher, b: Book, x: int, y: int)
    requires Ok(h, b, {}, 0) && x in b.infos && y in b.infos && x != y
    ensures b.infos[x].who.net != b.infos[y].who.net
  {
    hide TriedOk, NewOk, RefsOk, RandomOk, CountsOk, InfosOk;
  }

  /** Two lists of different entries, the second one of entries that were reached, are clean. */
  lemma ListsClean(h: Hasher, b: Book, news: seq<int>, tried: seq<int>, f: File)
    requires Ok(h, b, {}, 0) && |f.news| == |news| && |f.tried| == |tried| && Counting(f)
    requires forall i :: 0 <= i < |news| ==> news[i] in b.infos && f.news[i] == Kept(b.infos[news[i]])
    requires forall i ::
               0 <= i < |tried| ==>
               tried[i] in b.infos && b.infos[tried[i]].inTried && f.tried[i] == Kept(b.infos[tried[i]])
    requires forall i, j :: 0 <= i < j < |news + tried| ==> (news + tried)[i] != (news + tried)[j]
    ensures Clean(f)
  {
    hide Ok;
    var ids, all := news + tried, f.news + f.tried;
    forall i | 0 <= i < |ids|
      ensures all[i] == Kept(b.infos[ids[i]]) && all[i].lastSuccess >= 0 && (i >= |news| ==> all[i].lastSuccess > 0)
    {
      LooseInfo(h, b, {}, 0, ids[i]);
    }
    forall i, j | 0 <= i < j < |ids|
      ensures all[i].who.net != all[j].who.net
    {
      AddressesDiffer(h, b, ids[i], ids[j]);
    }
    assert forall i :: 0 <= i < |f.news| ==> f.news[i] == all[i];
    assert forall i :: 0 <= i < |f.tried| ==> f.tried[i] == all[|news| + i];
  }

  lemma WrittenClean(h: Hasher, b: Book)
    requires Ok(h, b, {}, 0)
    ensures b.idCount >= 0 && Clean(Written(h, b))
  {
    hide Ok, Ids, Clean, Indexes, Flip;
    OneList(h, b);
    CountsAnnounce(h, b);
    var news, tried := Ids(b.infos, false, b.idCount), Ids(b.infos, true, b.idCount);
    assert forall i, j :: 0 <= i < |news| && 0 <= j < |tried| ==> news[i] != tried[j];
    ListsClean(h, b, news, tried, Written(h, b));
  }

  // ---------------------------------------------------------------- reading what was written

  ghost predicate KeysTo(infos: Infos, n: nat) { forall id :: id in infos <==> 0 <= id < n }

  /** Only back pointers and reference counts are not taken from the record. */
  predicate FromRecord(i: Info, r: Record, tried: bool) {
    i == Loaded(r, i.randomPos).(inTried := tried, refCount := i.refCount)
  }

  lemma {:induction false} LoadNewsExact(h: Hasher, news: seq<Record>, n: nat)
    requires n <= |news|
    ensures var b := LoadNews(h, news, n, false);
            && KeysTo(b.infos, n) && b.idCount == n && b.news == map[] && b.tried == map[]
            && forall k :: 0 <= k < n ==> FromRecord(b.infos[k], news[k], false)
  {
    hide NewSlot;
    if n > 0 {
      LoadNewsExact(h, news, n - 1);
    }
  }

  /** No two of the records want the same slot. */
  predicate SlotsApart(h: Hasher, records: seq<Record>) {
    forall i, j :: 0 <= i < j < |records| ==> TriedSlot(h, records[i].who) != TriedSlot(h, records[j].who)
  }

  /** The entries that the first n tried records became. */
  ghost predicate TriedLoaded(h: Hasher, b: Book, tried: seq<Record>, n: nat, b': Book)
    requires n <= |tried| && b.idCount >= 0
  {
    && KeysTo(b'.infos, b.idCount + n) && b'.idCount == b.idCount + n && b'.news == b.news
    && (forall k :: 0 <= k < b.idCount ==> k in b.infos && b'.infos[k] == b.infos[k])
    && (forall k :: 0 <= k < n ==> FromRecord(b'.infos[b.idCount + k], tried[k], true))
    && (forall t {:trigger t in b'.tried} ::
         t in b'.tried ==> exists k :: 0 <= k < n && TriedSlot(h, tried[k].who) == t)
  }

  lemma LoadTriedIs(h: Hasher, c: Book, r: Record)
    requires TriedSlot(h, r.who) !in c.tried && c.idCount >= 0
    ensures var c' := LoadTried(h, c, r);
            && c'.addrs == c.addrs[r.who.net := c.idCount] && c'.tried == c.tried[TriedSlot(h, r.who) := c.idCount]
            && c'.news == c.news && c'.idCount == c.idCount + 1
            && c'.infos == c.infos[c.idCount := Loaded(r, |c.random|).(inTried := true)]
  {
    hide TriedSlot;
  }

  lemma LoadedIs(r: Record, pos: int)
    ensures FromRecord(Loaded(r, pos).(inTried := true), r, true)
  {
  }

  lemma LoadTriedExact(h: Hasher, b: Book, tried: seq<Record>, n: nat, c: Book)
    requires 0 < n <= |tried| && b.idCount >= 0 && SlotsApart(h, tried) && TriedLoaded(h, b, tried, n - 1, c)
    ensures TriedLoaded(h, b, tried, n, LoadTried(h, c, tried[n - 1]))
  {
    hide TriedSlot, LoadTried, FromRecord;
    var r := tried[n - 1];
    var t := TriedSlot(h, r.who);
    assert t !in c.tried;
    var b' := LoadTried(h, c, r);
    LoadTriedIs(h, c, r);
    LoadedIs(r, |c.random|);
    forall u | u in b'.tried
      ensures exists k :: 0 <= k < n && TriedSlot(h, tried[k].who) == u
    {
      if u == t {
        assert TriedSlot(h, tried[n - 1].who) == u;
      } else {
        var k :| 0 <= k < n - 1 && TriedSlot(h, tried[k].who) == u;
        assert k < n;
      }
    }
  }

  lemma {:induction false} LoadTriedsExact(h: Hasher, b: Book, tried: seq<Record>, n: nat)
    requires n <= |tried| && b.idCount >= 0 && SlotsApart(h, tried) && KeysTo(b.infos, b.idCount) && b.tried == map[]
    ensures TriedLoaded(h, b, tried, n, LoadTrieds(h, b, tried, n))
  {
    if n > 0 {
      LoadTriedsExact(h, b, tried, n - 1);
      hide TriedLoaded, LoadTried;
      LoadTriedExact(h, b, tried, n, LoadTrieds(h, b, tried, n - 1));
    }
  }

  lemma WrittenApart(h: Hasher, b: Book)
    requires Ok(h, b, {}, 0) && b.idCount >= 0
    ensures SlotsApart(h, Records(b.infos, true, b.idCount))
  {
    hide AddrOk, NewOk, RefsOk, RandomOk, CountsOk, InfosOk, TriedSlot, Ids;
    var ids, records := Ids(b.infos, true, b.idCount), Records(b.infos, true, b.idCount);
    forall i, j | 0 <= i < j < |records|
      ensures TriedSlot(h, records[i].who) != TriedSlot(h, records[j].who)
    {
      assert b.tried[TriedSlot(h, records[i].who)] == ids[i] && b.tried[TriedSlot(h, records[j].who)] == ids[j];
    }
  }

  // ---- the new table

  /** The new table, with file numbers, up to a position in a bucket. */
  function Upto(b: Book, bucket: nat, p: nat): map<Slot, int> {
    map s | s in b.news && (s.bucket < bucket || (s.bucket == bucket && s.pos < p)) :: Rank(b.infos, false, b.news[s])
  }

  /** The entries of the new table are in book c under their file numbers. */
  ghost predicate Numbered(b: Book, c: Book, nNew: int)
    requires b.idCount >= 0
  {
    var ids := Ids(b.infos, false, b.idCount);
    |ids| == nNew
      && forall k :: 0 <= k < nNew ==> k in c.infos && !c.infos[k].inTried && c.infos[k].who == b.infos[ids[k]].who
  }

  /** The entry in a slot of the new table has its place in the list. */
  lemma SlotOwner(h: Hasher, b: Book, s: Slot)
    requires Ok(h, b, {}, 0) && s in b.news
    ensures b.idCount >= 0 && s.bucket < NEW_BUCKET_COUNT && s.pos < BUCKET_SIZE
    ensures b.news[s] in b.infos && s == SlotIn(h, s.bucket, b.infos[b.news[s]].who)
    ensures var r := Rank(b.infos, false, b.news[s]);
            r < |Ids(b.infos, false, b.idCount)| && Ids(b.infos, false, b.idCount)[r] == b.news[s]
  {
    hide AddrOk, TriedOk, RefsOk, RandomOk, CountsOk, InfosOk, Ids, Rank;
    OneList(h, b);
    RankIs(b.infos, false, b.news[s], b.idCount);
  }

  lemma RefIs(h: Hasher, b: Book, loose: set<int>, id: int)
    requires Ok(h, b, loose, 0) && id in b.infos
    ensures b.infos[id].refCount == |Occurs(h, b.news, id, b.infos[id].who)| <= 8
  {
    hide AddrOk, TriedOk, NewOk, RandomOk, CountsOk, Occurs;
    assert InfoOk(b.infos[id], id in loose);
  }

  /** An entry has been found in fewer buckets than it is in. */
  lemma FoundFewer(h: Hasher, b: Book, bucket: nat, p: nat, s: Slot, who: Service)
    requires Ok(h, b, {}, 0) && s == Slot(bucket, p) && s in b.news && b.news[s] in b.infos
             && who == b.infos[b.news[s]].who
    ensures |Occurs(h, Upto(b, bucket, p), Rank(b.infos, false, b.news[s]), who)| < |Occurs(h, b.news, b.news[s], who)|
  {
    hide Ok, Rank, SlotIn;
    SlotOwner(h, b, s);
    var id, r := b.news[s], Rank(b.infos, false, b.news[s]);
    var some, every := Occurs(h, Upto(b, bucket, p), r, who), Occurs(h, b.news, id, who);
    forall k | k in some
      ensures k in every && k != bucket
    {
      var t := SlotIn(h, k, who);
      SlotOwner(h, b, t);
    }
    assert bucket in every;
    SmallerSet(some, every, bucket);
  }

  /** Reading the number at a position puts the entry back into that very slot. */
  lemma LoadIndexExact(h: Hasher, b: Book, c: Book, bucket: nat, p: nat, nNew: int)
    requires Ok(h, b, {}, 0) && Sound(h, c) && b.idCount >= 0 && Numbered(b, c, nNew)
    requires c.news == Upto(b, bucket, p) && Slot(bucket, p) in b.news
    ensures var r := Rank(b.infos, false, b.news[Slot(bucket, p)]);
            && r in c.infos && LoadIndex(h, c, bucket, r, nNew) == Enslot(c, Slot(bucket, p), r)
            && LoadIndex(h, c, bucket, r, nNew).news == Upto(b, bucket, p + 1)
  {
    hide Ok, Rank, SlotIn, Ids, Occurs;
    var s := Slot(bucket, p);
    SlotOwner(h, b, s);
    var r, who := Rank(b.infos, false, b.news[s]), b.infos[b.news[s]].who;
    assert c.infos[r].who == who;
    RefIs(h, c, Unplaced(c), r);
    RefIs(h, b, {}, b.news[s]);
    FoundFewer(h, b, bucket, p, s, who);
    assert Upto(b, bucket, p)[s := r] == Upto(b, bucket, p + 1);
  }

  /** Filling slots changes nothing but reference counts and the new table. */
  predicate OnlySlots(c0: Book, c: Book) {
    && c == c0.(infos := c.infos, news := c.news) && c.infos.Keys == c0.infos.Keys
    && forall id :: id in c0.infos ==> c.infos[id] == c0.infos[id].(refCount := c.infos[id].refCount)
  }

  lemma SlotsNumbered(b: Book, c0: Book, c: Book, nNew: int)
    requires b.idCount >= 0 && Numbered(b, c0, nNew) && OnlySlots(c0, c)
    ensures Numbered(b, c, nNew) && Fresh(c, nNew)
  {
    hide Ids;
    forall k | 0 <= k < nNew
      ensures k in c.infos && !c.infos[k].inTried && c.infos[k].who == b.infos[Ids(b.infos, false, b.idCount)[k]].who
    {
      assert k in c0.infos;
    }
  }

  lemma EnslotOnly(c0: Book, c: Book, s: Slot, id: int)
    requires OnlySlots(c0, c) && id in c.infos
    ensures OnlySlots(c0, Enslot(c, s, id))
  {
  }

  lemma {:induction false} LoadBucketExact(h: Hasher, b: Book, c0: Book, c: Book, bucket: nat, p: nat, nNew: int)
    requires Ok(h, b, {}, 0) && Sound(h, c) && b.idCount >= 0 && Numbered(b, c0, nNew) && OnlySlots(c0, c)
    requires c.news == Upto(b, bucket, 0) && bucket < NEW_BUCKET_COUNT
    ensures var c' := LoadBucket(h, c, bucket, Indexes(b.infos, b.news, bucket, p), nNew);
            Sound(h, c') && OnlySlots(c0, c') && c'.news == Upto(b, bucket, p)
  {
    hide Ok, Sound, OnlySlots, LoadIndex, Rank, Numbered, Fresh, Upto, Enslot;
    if p > 0 {
      LoadBucketExact(h, b, c0, c, bucket, p - 1, nNew);
      var before, s := Indexes(b.infos, b.news, bucket, p - 1), Slot(bucket, p - 1);
      var c1 := LoadBucket(h, c, bucket, before, nNew);
      if s in b.news {
        var r := Rank(b.infos, false, b.news[s]);
        assert (before + [r])[..|before|] == before;
        assert LoadBucket(h, c, bucket, before + [r], nNew) == LoadIndex(h, c1, bucket, r, nNew);
        SlotsNumbered(b, c0, c1, nNew);
        LoadIndexExact(h, b, c1, bucket, p - 1, nNew);
        LoadIndexSound(h, c1, bucket, r, nNew);
        EnslotOnly(c0, c1, s, r);
      } else {
        UptoSkips(b, bucket, p - 1);
      }
    }
  }

  lemma UptoSkips(b: Book, bucket: nat, p: nat)
    requires Slot(bucket, p) !in b.news
    ensures Upto(b, bucket, p + 1) == Upto(b, bucket, p)
  {
    hide Rank;
    assert forall s :: s in b.news && s.bucket == bucket ==> s == Slot(bucket, s.pos);
  }

  lemma UptoNext(h: Hasher, b: Book, bucket: nat)
    requires Ok(h, b, {}, 0)
    ensures Upto(b, bucket, BUCKET_SIZE) == Upto(b, bucket + 1, 0)
  {
    hide Ok, Rank, Ids, SlotIn;
    forall s | s in b.news
      ensures s.pos < BUCKET_SIZE
    {
      SlotOwner(h, b, s);
    }
  }

  lemma {:induction false} LoadBucketsExact(h: Hasher, b: Book, c0: Book, n: nat, nNew: int)
    requires Ok(h, b, {}, 0) && Sound(h, c0) && b.idCount >= 0 && Numbered(b, c0, nNew) && c0.news == map[]
    requires n <= NEW_BUCKET_COUNT
    ensures var c := LoadBuckets(h, c0, AllIndexes(b.infos, b.news, NEW_BUCKET_COUNT), n, nNew);
            Sound(h, c) && OnlySlots(c0, c) && c.news == Upto(b, n, 0)
  {
    hide Ok, Sound, Rank, Numbered, LoadBucket, Indexes;
    if n == 0 {
      assert Upto(b, 0, 0) == map[];
    } else {
      LoadBucketsExact(h, b, c0, n - 1, nNew);
      var c := LoadBuckets(h, c0, AllIndexes(b.infos, b.news, NEW_BUCKET_COUNT), n - 1, nNew);
      LoadBucketExact(h, b, c0, c, n - 1, BUCKET_SIZE, nNew);
      UptoNext(h, b, n - 1);
    }
  }

  /** The whole new table, with file numbers. */
  function NumberedTable(b: Book): map<Slot, int> { map s | s in b.news :: Rank(b.infos, false, b.news[s]) }

  lemma UptoEnd(h: Hasher, b: Book)
    requires Ok(h, b, {}, 0)
    ensures Upto(b, NEW_BUCKET_COUNT, 0) == NumberedTable(b)
  {
    hide Ok, Rank, Ids, SlotIn;
    forall s | s in b.news
      ensures s.bucket < NEW_BUCKET_COUNT
    {
      SlotOwner(h, b, s);
    }
  }

  lemma SameOccurs(h: Hasher, b: Book, id: int, who: Service)
    requires Ok(h, b, {}, 0) && id in b.infos && Picked(b.infos[id], false)
    ensures Occurs(h, NumberedTable(b), Rank(b.infos, false, id), who) == Occurs(h, b.news, id, who)
  {
    hide Ok, Rank, SlotIn, Ids;
    OneList(h, b);
    RankIs(b.infos, false, id, b.idCount);
    forall s | s in b.news
      ensures NumberedTable(b)[s] == Rank(b.infos, false, id) <==> b.news[s] == id
    {
      SlotOwner(h, b, s);
    }
  }

  /** Entry `i` came back as `i'`: all that is written of it, its table and its references. */
  predicate Restored(i: Info, i': Info) { i' == i.(lastTry := 0, lastCountAttempt := 0, randomPos := i'.randomPos) }

  ghost predicate SameTable(b: Book, t: map<Slot, int>, t': map<Slot, int>)
    requires b.idCount >= 0
  {
    t'.Keys == t.Keys && forall s :: s in t ==> t[s] in b.infos && t'[s] == Renamed(b, t[s])
  }

  /** The entries of c are those of b, new ones first, in the order of the file. */
  ghost predicate Recorded(b: Book, c: Book)
    requires b.idCount >= 0
  {
    var news, tried := Ids(b.infos, false, b.idCount), Ids(b.infos, true, b.idCount);
    && KeysTo(c.infos, |news| + |tried|)
    && (forall k {:trigger news[k]} :: 0 <= k < |news| ==> FromRecord(c.infos[k], Kept(b.infos[news[k]]), false))
    && (forall k {:trigger tried[k]} ::
         0 <= k < |tried| ==> FromRecord(c.infos[|news| + k], Kept(b.infos[tried[k]]), true))
  }

  lemma EntriesExact(h: Hasher, b: Book)
    requires Ok(h, b, {}, 0)
    ensures b.idCount >= 0 && var c := Entries(Written(h, b)); Recorded(b, c) && c.news == map[]
  {
    hide Ok, Ids, LoadNews, LoadTrieds, SlotsApart, Loaded, Indexes, Accepted, Usable;
    WrittenAccepted(h, b);
    CountsAnnounce(h, b);
    EntriesPlain(Written(h, b));
    WrittenApart(h, b);
    var f := Written(h, b);
    LoadNewsExact(h, f.news, |f.news|);
    LoadTriedsExact(h, LoadNews(h, f.news, |f.news|, false), f.tried, |f.tried|);
  }

  lemma RecordedNumbered(b: Book, c: Book)
    requires b.idCount >= 0 && Recorded(b, c)
    ensures Numbered(b, c, |Ids(b.infos, false, b.idCount)|)
  {
    hide Ids;
    var news := Ids(b.infos, false, b.idCount);
    forall k | 0 <= k < |news|
      ensures k in c.infos && !c.infos[k].inTried && c.infos[k].who == b.infos[news[k]].who
    {
      assert FromRecord(c.infos[k], Kept(b.infos[news[k]]), false);
    }
  }

  lemma SlotsRecorded(b: Book, c0: Book, c: Book)
    requires b.idCount >= 0 && Recorded(b, c0) && OnlySlots(c0, c)
    ensures Recorded(b, c)
  {
    hide Ids;
  }

  lemma TablesExact(h: Hasher, b: Book)
    requires Ok(h, b, {}, 0)
    ensures b.idCount >= 0
    ensures var c := Tables(Written(h, b)); Sound(h, c) && Recorded(b, c) && c.news == NumberedTable(b)
  {
    hide Ok, Sound, Recorded, Numbered, OnlySlots, NumberedTable, Upto, Ids, LoadBuckets, Entries, Fresh, Clean,
        Indexes, BucketCount;
    WrittenAccepted(h, b);
    WrittenClean(h, b);
    var f := Written(h, b);
    var c0 := Entries(f);
    EntriesExact(h, b);
    EntriesSound(f);
    RecordedNumbered(b, c0);
    LoadBucketsExact(h, b, c0, NEW_BUCKET_COUNT, |f.news|);
    UptoEnd(h, b);
    SlotsRecorded(b, c0, Tables(f));
  }

  lemma EntryBack(h: Hasher, b: Book, c: Book, id: int)
    requires Ok(h, b, {}, 0) && b.idCount >= 0 && id in b.infos
    requires Sound(h, c) && Recorded(b, c) && c.news == NumberedTable(b)
    ensures Renamed(b, id) in c.infos && Restored(b.infos[id], c.infos[Renamed(b, id)])
  {
    hide Ok, Ids, Rank, NumberedTable, Occurs, Unplaced;
    OneList(h, b);
    RankIs(b.infos, b.infos[id].inTried, id, b.idCount);
    var r := Renamed(b, id);
    LooseInfo(h, b, {}, 0, id);
    LooseInfo(h, c, Unplaced(c), 0, r);
    if !b.infos[id].inTried {
      SameOccurs(h, b, id, b.infos[id].who);
      RefIs(h, b, {}, id);
      RefIs(h, c, Unplaced(c), r);
    }
  }

  lemma Onto(b: Book, c: Book, id': int) returns (id: int)
    requires b.idCount >= 0 && Recorded(b, c) && id' in c.infos
    requires forall id ::
               id in b.infos ==> 0 <= id < b.idCount && (Picked(b.infos[id], false) <==> !Picked(b.infos[id], true))
    ensures id in b.infos && Renamed(b, id) == id'
  {
    hide Ids, Rank, FromRecord;
    var news, tried := Ids(b.infos, false, b.idCount), Ids(b.infos, true, b.idCount);
    if id' < |news| {
      id := news[id'];
      RankOf(b.infos, false, id', b.idCount);
    } else {
      id := tried[id' - |news|];
      RankOf(b.infos, true, id' - |news|, b.idCount);
    }
  }

  lemma OneToOne(b: Book, x: int, y: int)
    requires b.idCount >= 0 && x in b.infos && y in b.infos && Renamed(b, x) == Renamed(b, y)
    requires forall id ::
               id in b.infos ==> 0 <= id < b.idCount && (Picked(b.infos[id], false) <==> !Picked(b.infos[id], true))
    ensures x == y
  {
    hide Ids, Rank;
    RankIs(b.infos, b.infos[x].inTried, x, b.idCount);
    RankIs(b.infos, b.infos[y].inTried, y, b.idCount);
  }

  /** The entries correspond one to one. */
  ghost predicate SameEntries(b: Book, b': Book)
    requires b.idCount >= 0
  {
    && (forall id {:trigger id in b.infos} ::
         id in b.infos ==> Renamed(b, id) in b'.infos && Restored(b.infos[id], b'.infos[Renamed(b, id)]))
    && (forall id' {:trigger id' in b'.infos} ::
         id' in b'.infos ==> exists id :: id in b.infos && Renamed(b, id) == id')
    && (forall x, y {:trigger Renamed(b, x), Renamed(b, y)} ::
         x in b.infos && y in b.infos && Renamed(b, x) == Renamed(b, y) ==> x == y)
  }

  lemma EntriesBack(h: Hasher, b: Book, c: Book)
    requires Ok(h, b, {}, 0) && b.idCount >= 0
    requires Sound(h, c) && Recorded(b, c) && c.news == NumberedTable(b)
    ensures SameEntries(b, c)
  {
    hide Ok, Sound, Recorded, Renamed, Restored, NumberedTable;
    OneList(h, b);
    forall id | id in b.infos
      ensures Renamed(b, id) in c.infos && Restored(b.infos[id], c.infos[Renamed(b, id)])
    {
      EntryBack(h, b, c, id);
    }
    forall id' | id' in c.infos
      ensures exists id :: id in b.infos && Renamed(b, id) == id'
    {
      var id := Onto(b, c, id');
    }
    forall x, y | x in b.infos && y in b.infos && Renamed(b, x) == Renamed(b, y)
      ensures x == y
    {
      OneToOne(b, x, y);
    }
  }

  lemma NoneHomeless(h: Hasher, b: Book, c: Book)
    requires Ok(h, b, {}, 0) && b.idCount >= 0 && SameEntries(b, c)
    ensures forall id :: !Homeless(c, id)
  {
    hide Ok, Renamed;
    forall id' | id' in c.infos
      ensures !Homeless(c, id')
    {
      var id :| id in b.infos && Renamed(b, id) == id';
      LooseInfo(h, b, {}, 0, id);
    }
  }

  lemma {:induction false} PruneNone(b: Book, n: nat)
    requires forall id :: !Homeless(b, id)
    ensures Prune(b, n) == b
  {
    hide Homeless, Listed, Delete;
    if n > 0 {
      PruneNone(b, n - 1);
    }
  }

  /** Book b' holds the same as b under new ids. */
  ghost predicate Same(b: Book, b': Book)
    requires b.idCount >= 0
  {
    && SameEntries(b, b') && b'.nNew == b.nNew && b'.nTried == b.nTried
    && SameTable(b, b.tried, b'.tried) && SameTable(b, b.news, b'.news) && SameAddresses(b, b')
  }

  ghost predicate SameAddresses(b: Book, b': Book)
    requires b.idCount >= 0
  {
    b'.addrs.Keys == b.addrs.Keys
      && forall a :: a in b.addrs ==> b.addrs[a] in b.infos && b'.addrs[a] == Renamed(b, b.addrs[a])
  }

  lemma Origin(b: Book, c: Book, id': int) returns (id: int)
    requires b.idCount >= 0 && SameEntries(b, c) && id' in c.infos
    ensures id in b.infos && Renamed(b, id) == id' && Restored(b.infos[id], c.infos[id'])
  {
    hide Renamed;
    id :| id in b.infos && Renamed(b, id) == id';
  }

  lemma TriedBack(h: Hasher, b: Book, c: Book)
    requires Ok(h, b, {}, 0) && Ok(h, c, {}, 0) && b.idCount >= 0 && SameEntries(b, c)
    ensures SameTable(b, b.tried, c.tried)
  {
    hide Renamed, TriedSlot, AddrOk, NewOk, RefsOk, RandomOk, CountsOk, InfosOk;
    forall t | t in b.tried
      ensures t in c.tried && b.tried[t] in b.infos && c.tried[t] == Renamed(b, b.tried[t])
    {
      assert b.tried[t] in b.infos;
      assert Renamed(b, b.tried[t]) in c.infos;
    }
    forall t | t in c.tried
      ensures t in b.tried
    {
      assert c.tried[t] in c.infos;
      var id := Origin(b, c, c.tried[t]);
    }
  }

  lemma AddressesBack(h: Hasher, b: Book, c: Book)
    requires Ok(h, b, {}, 0) && Ok(h, c, {}, 0) && b.idCount >= 0 && SameEntries(b, c)
    ensures SameAddresses(b, c)
  {
    hide Renamed, TriedOk, NewOk, RefsOk, RandomOk, CountsOk, InfosOk;
    forall a | a in b.addrs
      ensures a in c.addrs && b.addrs[a] in b.infos && c.addrs[a] == Renamed(b, b.addrs[a])
    {
      assert b.addrs[a] in b.infos;
      assert Renamed(b, b.addrs[a]) in c.infos;
    }
    forall a | a in c.addrs
      ensures a in b.addrs
    {
      assert c.addrs[a] in c.infos;
      var id := Origin(b, c, c.addrs[a]);
    }
  }

  lemma NewsBack(h: Hasher, b: Book, c: Book)
    requires Ok(h, b, {}, 0) && b.idCount >= 0 && c.news == NumberedTable(b)
    ensures SameTable(b, b.news, c.news)
  {
    hide AddrOk, TriedOk, RefsOk, RandomOk, CountsOk, InfosOk, Rank;
  }

  lemma CountsBack(h: Hasher, b: Book, c: Book)
    requires Ok(h, b, {}, 0) && Ok(h, c, {}, 0) && b.idCount >= 0 && Recorded(b, c)
    ensures c.nNew == b.nNew && c.nTried == b.nTried
  {
    hide Ok, Ids, Loaded;
    CountsAnnounce(h, b);
    Counted(h, c);
    forall k | k in c.infos
      ensures k in Tried(c.infos) <==> b.nNew <= k
    {
      TriedAbove(b, c, k);
    }
    RangeSize(c.infos.Keys, 0, b.nNew + b.nTried);
    RangeSize(Tried(c.infos), b.nNew, b.nNew + b.nTried);
  }

  lemma TriedAbove(b: Book, c: Book, k: int)
    requires b.idCount >= 0 && Recorded(b, c) && k in c.infos
    ensures c.infos[k].inTried <==> |Ids(b.infos, false, b.idCount)| <= k
  {
    hide Ids, Loaded;
    var news, tried := Ids(b.infos, false, b.idCount), Ids(b.infos, true, b.idCount);
    if k < |news| {
      assert FromRecord(c.infos[k], Kept(b.infos[news[k]]), false);
    } else {
      assert FromRecord(c.infos[|news| + (k - |news|)], Kept(b.infos[tried[k - |news|]]), true);
    }
  }

  lemma {:induction false} RangeSize(a: set<int>, m: int, n: int)
    requires m <= n && forall k :: k in a <==> m <= k < n
    ensures |a| == n - m
    decreases n - m
  {
    if m == n {
      assert forall k :: k !in a;
      assert a == {};
    } else {
      RangeSize(a - {n - 1}, m, n - 1);
    }
  }

  /** Nothing is lost on the way to disk and back: the reader accepts the file, drops no entry, and
      ends up with the same entries in the same slots of both tables. */
  lemma RoundTrip(h: Hasher, b: Book)
    requires Ok(h, b, {}, 0)
    ensures b.idCount >= 0 && Accepted(Written(h, b))
    ensures Ok(h, Read(Written(h, b)), {}, 0) && Same(b, Read(Written(h, b)))
  {
    hide Ok, Sound, Recorded, Written, Tables, Prune, SameEntries, SameTable, SameAddresses, NumberedTable, Accepted,
        Clean, Homeless;
    WrittenAccepted(h, b);
    WrittenClean(h, b);
    TablesExact(h, b);
    var f := Written(h, b);
    WrittenKey(h, b);
    var c := Tables(f);
    EntriesBack(h, b, c);
    NoneHomeless(h, b, c);
    PruneNone(c, Times(c.idCount));
    CleanIsConsistent(f);
    CountsBack(h, b, c);
    TriedBack(h, b, c);
    NewsBack(h, b, c);
    AddressesBack(h, b, c);
  }

  lemma WrittenKey(h: Hasher, b: Book)
    requires b.idCount >= 0
    ensures Written(h, b).key == h
  {
  }

  // ---------------------------------------------------------------- the code

  lemma RecordsNext(infos: Infos, tried: bool, n: nat)
    ensures Records(infos, tried, 0) == [] && Rank(infos, tried, 0) == 0
    ensures Rank(infos, tried, n + 1) == Rank(infos, tried, n) + if n in infos && Picked(infos[n], tried) then 1 else 0
    ensures Records(infos, tried, n + 1) == Records(infos, tried, n) +
              if n in infos && Picked(infos[n], tried) then [Kept(infos[n])] else []
  {
    hide Picked;
  }

  lemma IdsBelow(h: Hasher, b: Book)
    requires Ok(h, b, {}, 0)
    ensures forall x :: x in b.infos ==> 0 <= x < b.idCount
  {
    hide AddrOk, TriedOk, NewOk, RefsOk, RandomOk, CountsOk;
  }

  /** One of the two lists of records, and the numbers given to the entries passed on the way. */
  method WriteRecords(m: Manager, tried: bool) returns (records: seq<Record>, mapUnkIds: map<int, int>)
    requires m.Valid()
    ensures m.nIdCount >= 0 && records == Records(m.mapInfo, tried, m.nIdCount)
    ensures forall id :: id in m.mapInfo ==> id in mapUnkIds && mapUnkIds[id] == Rank(m.mapInfo, tried, id)
  {
    hide Ok, Ids, Picked, Rank, Records;
    CountsAnnounce(m.h, m.B());
    var infos := m.mapInfo;
    IdsBelow(m.h, m.B());
    RecordsNext(m.mapInfo, tried, 0);
    records, mapUnkIds := [], map[];
    var nIds := 0;
    for id := 0 to m.nIdCount
      invariant records == Records(infos, tried, id) && nIds == Rank(infos, tried, id)
      invariant forall x :: x in infos && x < id ==> x in mapUnkIds && mapUnkIds[x] == Rank(infos, tried, x)
    {
      RecordsNext(m.mapInfo, tried, id);
      if id in m.mapInfo {
        mapUnkIds := mapUnkIds[id := nIds];
        if Picked(m.mapInfo[id], tried) {
          RankIs(m.mapInfo, tried, id, m.nIdCount);
          assert nIds != if tried then m.nTried else m.nNew;
          records := records + [Kept(m.mapInfo[id])];
          nIds := nIds + 1;
        }
      }
    }
  }

  lemma NumbersKnown(h: Hasher, b: Book, numbers: map<int, int>)
    requires Ok(h, b, {}, 0) && forall id :: id in b.infos ==> id in numbers && numbers[id] == Rank(b.infos, false, id)
    ensures forall s :: s in b.news ==> b.news[s] in numbers && numbers[b.news[s]] == Rank(b.infos, false, b.news[s])
  {
    hide Ok, Rank;
    KnownSlots(h, b, {}, 0);
    forall s | s in b.news
      ensures b.news[s] in numbers && numbers[b.news[s]] == Rank(b.infos, false, b.news[s])
    {
      var id := b.news[s];
      assert id in b.infos;
    }
  }

  method WriteBucket(m: Manager, mapUnkIds: map<int, int>, bucket: nat) returns (indexes: seq<int>)
    requires m.Valid()
             && forall id :: id in m.mapInfo ==> id in mapUnkIds && mapUnkIds[id] == Rank(m.mapInfo, false, id)
    ensures indexes == Indexes(m.mapInfo, m.vvNew, bucket, BUCKET_SIZE)
  {
    hide Ok, Rank;
    var vvNew := m.vvNew;
    NumbersKnown(m.h, m.B(), mapUnkIds);
    indexes := [];
    for i := 0 to BUCKET_SIZE
      invariant indexes == Indexes(m.mapInfo, vvNew, bucket, i)
    {
      var s := Slot(bucket, i);
      if s in vvNew {
        indexes := indexes + [mapUnkIds[vvNew[s]]];
      }
    }
  }

  /** Everything that is written, in order; none of the checks on the counters fails. */
  method Serialize(m: Manager) returns (f: File)
    requires m.Valid()
    ensures m.nIdCount >= 0 && f == Written(m.h, m.B())
  {
    hide Ok, Ids, Indexes, Rank, Flip;
    var news, mapUnkIds := WriteRecords(m, false);
    var tried, _ := WriteRecords(m, true);
    var buckets := [];
    for bucket := 0 to NEW_BUCKET_COUNT
      invariant buckets == AllIndexes(m.mapInfo, m.vvNew, bucket)
    {
      var indexes := WriteBucket(m, mapUnkIds, bucket);
      buckets := buckets + [indexes];
    }
    f := File(1, m.h, m.nNew, m.nTried, Flip(NEW_BUCKET_COUNT), news, tried, buckets);
  }

  /** vRandom lists the entries, and ids are given in order: true of everything that is read. */
  ghost predicate ListOk(b: Book) {
    RandomOk(b.infos, b.random) && forall id :: id in b.infos ==> 0 <= id < b.idCount
  }

  lemma LoadNewListed(h: Hasher, b: Book, r: Record, direct: bool)
    requires ListOk(b) && b.idCount >= 0
    ensures ListOk(LoadNew(h, b, r, direct))
  {
    hide NewSlot;
  }

  lemma {:induction false} LoadNewsListed(h: Hasher, news: seq<Record>, n: nat, direct: bool)
    requires n <= |news|
    ensures ListOk(LoadNews(h, news, n, direct))
  {
    hide LoadNew;
    if n > 0 {
      LoadNewsListed(h, news, n - 1, direct);
      LoadNewsFresh(h, news, n - 1, direct);
      LoadNewListed(h, LoadNews(h, news, n - 1, direct), news[n - 1], direct);
    }
  }

  lemma LoadTriedListed(h: Hasher, b: Book, r: Record)
    requires ListOk(b) && b.idCount >= 0
    ensures ListOk(LoadTried(h, b, r))
  {
    hide TriedSlot;
  }

  lemma {:induction false} LoadTriedsListed(h: Hasher, b: Book, tried: seq<Record>, n: nat)
    requires n <= |tried| && ListOk(b) && b.idCount >= 0 && Fresh(b, b.idCount)
    ensures ListOk(LoadTrieds(h, b, tried, n))
  {
    hide LoadTried, ListOk, Fresh;
    if n > 0 {
      LoadTriedsListed(h, b, tried, n - 1);
      LoadTriedsFresh(h, b, tried, n - 1);
      LoadTriedListed(h, LoadTrieds(h, b, tried, n - 1), tried[n - 1]);
    }
  }

  lemma LoadIndexOnly(h: Hasher, c0: Book, c: Book, bucket: nat, index: int, nNew: int)
    requires OnlySlots(c0, c)
    ensures OnlySlots(c0, LoadIndex(h, c, bucket, index, nNew))
  {
    hide SlotIn;
  }

  lemma {:induction false} LoadBucketOnly(h: Hasher, c0: Book, c: Book, bucket: nat, indexes: seq<int>, nNew: int)
    requires OnlySlots(c0, c)
    ensures OnlySlots(c0, LoadBucket(h, c, bucket, indexes, nNew))
  {
    hide OnlySlots, LoadIndex;
    if indexes != [] {
      var last := |indexes| - 1;
      LoadBucketOnly(h, c0, c, bucket, indexes[..last], nNew);
      LoadIndexOnly(h, c0, LoadBucket(h, c, bucket, indexes[..last], nNew), bucket, indexes[last], nNew);
    }
  }

  lemma {:induction false} LoadBucketsOnly(h: Hasher, b: Book, buckets: seq<seq<int>>, n: nat, nNew: int)
    requires n <= |buckets|
    ensures OnlySlots(b, LoadBuckets(h, b, buckets, n, nNew))
  {
    hide LoadBucket;
    if n > 0 {
      LoadBucketsOnly(h, b, buckets, n - 1, nNew);
      LoadBucketOnly(h, b, LoadBuckets(h, b, buckets, n - 1, nNew), n - 1, buckets[n - 1], nNew);
    }
  }

  lemma SlotsListed(c0: Book, c: Book)
    requires OnlySlots(c0, c) && ListOk(c0)
    ensures ListOk(c)
  {
    assert forall id :: id in c0.infos <==> id in c.infos;
    assert forall id :: id in c0.infos ==> c.infos[id].randomPos == c0.infos[id].randomPos;
    assert c.random == c0.random && c.idCount == c0.idCount;
  }

  lemma DeleteListed(b: Book, id: int)
    requires ListOk(b) && id in b.infos
    ensures Listed(b, id) && ListOk(Delete(b, id)) && Delete(b, id).idCount == b.idCount
  {
    hide SwapRandom, ListOk;
    ListedIs(b, id);
    var p, q := b.infos[id].randomPos, |b.random| - 1;
    SwapListed(b, p, q);
    PopListed(SwapRandom(b, p, q), id);
  }

  lemma ListedIs(b: Book, id: int)
    requires ListOk(b) && id in b.infos
    ensures Listed(b, id)
  {
  }

  lemma PopListed(b: Book, id: int)
    requires ListOk(b) && id in b.infos && b.infos[id].randomPos == |b.random| - 1
    ensures b.random != [] && ListOk(Removed(b, id).(random := b.random[..|b.random| - 1]))
  {
    PopKeeps(b.infos, b.random, id);
  }

  lemma SwapListed(b: Book, p: nat, q: nat)
    requires ListOk(b) && p < |b.random| && q < |b.random|
    ensures b.random[p] in b.infos && b.random[q] in b.infos
    ensures var b1 := SwapRandom(b, p, q);
            && ListOk(b1) && |b1.random| == |b.random| && b1.idCount == b.idCount && b1.infos.Keys == b.infos.Keys
            && b1.infos[b.random[p]].randomPos == q
  {
    if p != q {
      SwapKeeps(b.infos, b.random, p, q);
    }
  }

  lemma {:induction false} PruneListed(b: Book, n: nat)
    requires ListOk(b)
    ensures ListOk(Prune(b, n)) && Prune(b, n).idCount == b.idCount
  {
    hide ListOk, Listed, Delete;
    if n > 0 {
      PruneListed(b, n - 1);
      if Homeless(Prune(b, n - 1), n - 1) {
        DeleteListed(Prune(b, n - 1), n - 1);
      }
    }
  }

  /** The manager has the five indexes of a book; its counters may differ. */
  ghost predicate HasIndexes(m: Manager, b: Book)
    reads m
  {
    && m.mapInfo == b.infos && m.mapAddr == b.addrs && m.vRandom == b.random && m.vvTried == b.tried
    && m.vvNew == b.news
  }

  method ReadNew(m: Manager, f: File, n: nat)
    requires m.h == f.key && n < |f.news| && HasIndexes(m, LoadNews(f.key, f.news, n, !Usable(f)))
    modifies m`mapInfo, m`mapAddr, m`vRandom, m`vvNew
    ensures HasIndexes(m, LoadNews(f.key, f.news, n + 1, !Usable(f)))
  {
    hide NewSlot, Usable, LoadNews, Loaded;
    NewsStep(f.key, f.news, n, !Usable(f));
    var r := f.news[n];
    var info := Loaded(r, |m.vRandom|);
    m.mapInfo := m.mapInfo[n := info];
    m.mapAddr := m.mapAddr[r.who.net := n];
    m.vRandom := m.vRandom + [n];
    if !Usable(f) {
      var s := NewSlot(m.h, r.who, r.source);
      if s !in m.vvNew {
        m.vvNew := m.vvNew[s := n];
        m.mapInfo := m.mapInfo[n := info.(refCount := info.refCount + 1)];
      }
    }
  }

  method ReadNews(m: Manager, f: File)
    requires m.h == f.key && m.B() == EMPTY.(nNew := f.nNew, nTried := f.nTried) && |f.news| == Times(f.nNew)
    modifies m
    ensures m.B() == NewEntries(f).(nTried := f.nTried)
    ensures m.nLastGood == old(m.nLastGood)
  {
    hide NewSlot, Usable, LoadNews, Loaded;
    NewsStart(f.key, f.news, !Usable(f));
    for n := 0 to Times(f.nNew)
      invariant HasIndexes(m, LoadNews(f.key, f.news, n, !Usable(f)))
      invariant m.nNew == f.nNew && m.nTried == f.nTried && m.nLastGood == old(m.nLastGood)
    {
      ReadNew(m, f, n);
    }
    LoadNewsFresh(f.key, f.news, |f.news|, !Usable(f));
    NewsCount(f.key, f.news, |f.news|, !Usable(f));
    m.nIdCount := f.nNew;
  }

  lemma NewsStart(h: Hasher, news: seq<Record>, direct: bool)
    ensures LoadNews(h, news, 0, direct) == EMPTY
  {
  }

  lemma NewsStep(h: Hasher, news: seq<Record>, n: nat, direct: bool)
    requires n < |news|
    ensures var b, b', r := LoadNews(h, news, n, direct), LoadNews(h, news, n + 1, direct), news[n];
            var s := NewSlot(h, r.who, r.source);
            var slotted, i := direct && s !in b.news, Loaded(r, |b.random|);
            && b'.infos == b.infos[n := if slotted then i.(refCount := i.refCount + 1) else i]
            && b'.addrs == b.addrs[r.who.net := n] && b'.random == b.random + [n]
            && b'.tried == b.tried && b'.news == if slotted then b.news[s := n] else b.news
  {
    hide NewSlot;
    LoadNewsFresh(h, news, n, direct);
    var b, b', r := LoadNews(h, news, n, direct), LoadNews(h, news, n + 1, direct), news[n];
    assert b' == LoadNew(h, b, r, direct);
    var s := NewSlot(h, r.who, r.source);
    if direct && s !in b.news {
      assert b'.infos == b.infos[n := Loaded(r, |b.random|).(refCount := 1)];
    }
  }

  lemma {:induction false} NewsCount(h: Hasher, news: seq<Record>, n: nat, direct: bool)
    requires n <= |news|
    ensures LoadNews(h, news, n, direct).nNew == n && LoadNews(h, news, n, direct).nTried == 0
  {
    hide NewSlot;
    if n > 0 {
      NewsCount(h, news, n - 1, direct);
    }
  }

  lemma TriedsStart(h: Hasher, b: Book, tried: seq<Record>)
    ensures LoadTrieds(h, b, tried, 0) == b
  {
  }

  lemma TriedsStep(h: Hasher, b: Book, tried: seq<Record>, n: nat)
    requires n < |tried|
    ensures var c, c', r := LoadTrieds(h, b, tried, n), LoadTrieds(h, b, tried, n + 1), tried[n];
            var t := TriedSlot(h, r.who);
            if t in c.tried then c' == c
            else
              && c'.infos == c.infos[c.idCount := Loaded(r, |c.random|).(inTried := true)]
              && c' == Book(c'.infos, c.addrs[r.who.net := c.idCount], c.random + [c.idCount],
                 if c.idCount == -1 then c.tried
                     else c.tried[t := c.idCount], c.news, c.nTried + 1, c.nNew, c.idCount + 1)
  {
    hide TriedSlot;
    var c, c', r := LoadTrieds(h, b, tried, n), LoadTrieds(h, b, tried, n + 1), tried[n];
    assert c' == LoadTried(h, c, r);
    if TriedSlot(h, r.who) !in c.tried {
      assert c'.infos == c.infos[c.idCount := Loaded(r, |c.random|).(inTried := true)];
    }
  }

  method ReadTried(m: Manager, f: File, ghost b: Book)
    requires m.h == f.key && m.B() == b.(nTried := f.nTried) && b.nTried == 0 && |f.tried| == Times(f.nTried)
    modifies m
    ensures var c := LoadTrieds(f.key, b, f.tried, |f.tried|); m.B() == c.(nTried := c.nTried + Short(f.nTried))
    ensures m.nLastGood == old(m.nLastGood)
  {
    hide TriedSlot, LoadTrieds;
    var nLost := 0;
    TriedsStart(f.key, b, f.tried);
    for n := 0 to Times(f.nTried)
      invariant m.B() == LoadTrieds(f.key, b, f.tried, n).(nTried := f.nTried)
      invariant LoadTrieds(f.key, b, f.tried, n).nTried == n - nLost
      invariant m.nLastGood == old(m.nLastGood)
    {
      TriedsStep(f.key, b, f.tried, n);
      var info := Loaded(f.tried[n], -1);
      var t := TriedSlot(m.h, info.who);
      if t !in m.vvTried {
        info := info.(randomPos := |m.vRandom|, inTried := true);
        m.vRandom := m.vRandom + [m.nIdCount];
        m.mapInfo := m.mapInfo[m.nIdCount := info];
        m.mapAddr := m.mapAddr[info.who.net := m.nIdCount];
        if m.nIdCount != -1 {
          m.vvTried := m.vvTried[t := m.nIdCount];
        }
        m.nIdCount := m.nIdCount + 1;
      } else {
        nLost := nLost + 1;
      }
    }
    m.nTried := m.nTried - nLost;
  }

  method ReadBucket(m: Manager, f: File, bucket: nat, ghost b: Book)
    requires m.h == f.key && m.B() == b && Fresh(b, |f.news|) && bucket < |f.buckets|
    requires m.nNew == f.nNew && |f.news| == Times(f.nNew)
    modifies m
    ensures m.B() == if Usable(f) then LoadBucket(f.key, b, bucket, f.buckets[bucket], |f.news|) else b
    ensures m.nLastGood == old(m.nLastGood)
  {
    hide SlotIn, Usable, Fresh;
    var indexes := f.buckets[bucket];
    for n := 0 to |indexes|
      invariant m.B() == if Usable(f) then LoadBucket(f.key, b, bucket, indexes[..n], |f.news|) else b
      invariant m.nLastGood == old(m.nLastGood)
    {
      ghost var c := LoadBucket(f.key, b, bucket, indexes[..n], |f.news|);
      LoadBucketOnly(f.key, b, b, bucket, indexes[..n], |f.news|);
      FreshOnly(b, c, |f.news|);
      assert indexes[..n + 1][..n] == indexes[..n];
      var nIndex := indexes[n];
      if 0 <= nIndex < m.nNew {
        FreshHas(m.B(), |f.news|, nIndex);
        var s := SlotIn(m.h, bucket, m.mapInfo[nIndex].who);
        if Usable(f) && s !in m.vvNew && m.mapInfo[nIndex].refCount < NEW_BUCKETS_PER_ADDRESS {
          m.mapInfo := m.mapInfo[nIndex := m.mapInfo[nIndex].(refCount := m.mapInfo[nIndex].refCount + 1)];
          m.vvNew := m.vvNew[s := nIndex];
        }
      }
    }
    assert indexes[..|indexes|] == indexes;
  }

  lemma FreshOnly(b: Book, c: Book, n: int)
    requires Fresh(b, n) && OnlySlots(b, c)
    ensures Fresh(c, n) && c.nNew == b.nNew
  {
  }

  lemma FreshHas(b: Book, n: int, id: int)
    requires Fresh(b, n) && 0 <= id < n
    ensures id in b.infos
  {
  }

  lemma PruneOrNot(b: Book, n: nat)
    requires ListOk(b) || forall id :: !Homeless(b, id)
    ensures (ListOk(Prune(b, n)) && Prune(b, n).idCount == b.idCount) || !Homeless(Prune(b, n), n)
    ensures var c := Prune(b, n); Homeless(c, n) <==> n in c.infos && !c.infos[n].inTried && c.infos[n].refCount == 0
  {
    hide ListOk, Prune;
    if ListOk(b) {
      PruneListed(b, n);
    } else {
      PruneNone(b, n);
    }
  }

  /** Entries without a slot are deleted; ids below zero are those of tried entries. */
  method PruneAll(m: Manager, ghost b: Book)
    requires m.B() == b && (ListOk(b) || forall id :: !Homeless(b, id))
    modifies m
    ensures m.B() == Prune(b, Times(b.idCount)) && m.nLastGood == old(m.nLastGood)
  {
    hide ListOk, AddrBook.Delete, Listed, Homeless;
    var n := Times(m.nIdCount);
    for id := 0 to n
      invariant m.B() == Prune(b, id) && m.nLastGood == old(m.nLastGood)
    {
      PruneOrNot(b, id);
      if id in m.mapInfo && !m.mapInfo[id].inTried && m.mapInfo[id].refCount == 0 {
        DeleteListed(m.B(), id);
        m.Delete(id);
      }
    }
  }

  /** A file is refused exactly when its counts are too large or it ends early; otherwise a manager is made
      of it, and a consistent one whenever no count is negative and no address occurs twice. */
  method Unserialize(f: File, isRoutable: NetAddr -> bool) returns (ok: bool, m: Manager)
    ensures fresh(m) && (ok <==> Accepted(f))
    ensures ok ==> m.h == f.key && m.B() == Read(f)
    ensures ok && Clean(f) ==> m.Valid()
  {
    hide Ok, LoadNews, LoadTrieds, LoadBuckets, Prune, ListOk, Fresh, Clean, Usable, BucketCount;
    m := new Manager(f.key, isRoutable);
    if f.nNew > NEW_BUCKET_COUNT * BUCKET_SIZE || f.nTried > TRIED_BUCKET_COUNT * BUCKET_SIZE
       || |f.news| != Times(f.nNew) || |f.tried| != Times(f.nTried) || |f.buckets| != Times(BucketCount(f)) {
      return false, m;
    }
    m.nNew, m.nTried := f.nNew, f.nTried;
    ReadNews(m, f);
    NewsCount(f.key, f.news, |f.news|, !Usable(f));
    ReadTried(m, f, NewEntries(f));
    EntriesFresh(f);
    ghost var b2 := Entries(f);
    BucketsStart(f.key, b2, f.buckets, |f.news|);
    for bucket := 0 to |f.buckets|
      invariant m.h == f.key && m.B() == if Usable(f) then LoadBuckets(f.key, b2, f.buckets, bucket, |f.news|) else b2
    {
      BucketsStep(f.key, b2, f.buckets, bucket, |f.news|);
      ReadBucket(m, f, bucket, m.B());
    }
    LoadBucketsOnly(f.key, b2, f.buckets, |f.buckets|, |f.news|);
    TablesPrunable(f);
    PruneAll(m, Tables(f));
    if Clean(f) {
      CleanIsConsistent(f);
    }
    return true, m;
  }

  lemma EntriesListed(f: File)
    requires f.nNew >= 0
    ensures ListOk(Entries(f)) && Entries(f).idCount >= 0
  {
    hide ListOk, Fresh, LoadNews, LoadTrieds, Usable;
    EntriesPlain(f);
    LoadNewsListed(f.key, f.news, |f.news|, !Usable(f));
    LoadNewsFresh(f.key, f.news, |f.news|, !Usable(f));
    var b := LoadNews(f.key, f.news, |f.news|, !Usable(f));
    LoadTriedsListed(f.key, b, f.tried, |f.tried|);
    LoadTriedsFresh(f.key, b, f.tried, |f.tried|);
    CountKeepsList(LoadTrieds(f.key, b, f.tried, |f.tried|), Entries(f).nTried);
  }

  lemma CountKeepsList(b: Book, n: int)
    requires ListOk(b)
    ensures ListOk(b.(nTried := n))
  {
  }

  lemma CountKeepsFresh(b: Book, n: int, k: int)
    requires Fresh(b, k)
    ensures Fresh(b.(nTried := n), k)
  {
  }

  lemma EntriesFresh(f: File)
    requires |f.news| == Times(f.nNew)
    ensures Fresh(Entries(f), |f.news|) && Entries(f).nNew == f.nNew
  {
    hide Fresh, LoadNews, LoadTrieds, Usable;
    LoadNewsFresh(f.key, f.news, |f.news|, !Usable(f));
    NewsCount(f.key, f.news, |f.news|, !Usable(f));
    TriedsCount(f.key, NewEntries(f), f.tried, |f.tried|);
    var c := LoadTrieds(f.key, NewEntries(f), f.tried, |f.tried|);
    if f.nNew >= 0 {
      EntriesPlain(f);
      LoadTriedsFresh(f.key, NewEntries(f), f.tried, |f.tried|);
    } else {
      NoneFresh(c);
    }
    CountKeepsFresh(c, Entries(f).nTried, |f.news|);
  }

  lemma NoneFresh(b: Book)
    ensures Fresh(b, 0)
  {
  }

  lemma {:induction false} TriedsCount(h: Hasher, b: Book, tried: seq<Record>, n: nat)
    requires n <= |tried|
    ensures LoadTrieds(h, b, tried, n).nNew == b.nNew
  {
    hide TriedSlot;
    if n > 0 {
      TriedsCount(h, b, tried, n - 1);
    }
  }

  lemma BucketsStart(h: Hasher, b: Book, buckets: seq<seq<int>>, nNew: int)
    ensures LoadBuckets(h, b, buckets, 0, nNew) == b
  {
  }

  lemma BucketsStep(h: Hasher, b: Book, buckets: seq<seq<int>>, n: nat, nNew: int)
    requires n < |buckets| && Fresh(b, nNew)
    ensures var c := LoadBuckets(h, b, buckets, n, nNew);
            && LoadBuckets(h, b, buckets, n + 1, nNew) == LoadBucket(h, c, n, buckets[n], nNew)
            && Fresh(c, nNew) && c.nNew == b.nNew
  {
    hide LoadBucket, OnlySlots, Fresh;
    LoadBucketsOnly(h, b, buckets, n, nNew);
    FreshOnly(b, LoadBuckets(h, b, buckets, n, nNew), nNew);
  }

  lemma TablesListed(f: File)
    requires f.nNew >= 0
    ensures ListOk(Tables(f)) && Tables(f).idCount >= 0
  {
    hide ListOk, Entries, LoadBuckets, Usable, OnlySlots;
    EntriesListed(f);
    LoadBucketsOnly(f.key, Entries(f), f.buckets, |f.buckets|, |f.news|);
    SlotsListed(Entries(f), LoadBuckets(f.key, Entries(f), f.buckets, |f.buckets|, |f.news|));
    OnlyIds(Entries(f), LoadBuckets(f.key, Entries(f), f.buckets, |f.buckets|, |f.news|));
  }

  predicate AllTried(b: Book) { forall id :: id in b.infos ==> b.infos[id].inTried }

  lemma {:induction false} LoadTriedsTried(h: Hasher, b: Book, tried: seq<Record>, n: nat)
    requires n <= |tried| && AllTried(b)
    ensures AllTried(LoadTrieds(h, b, tried, n))
  {
    hide TriedSlot;
    if n > 0 {
      LoadTriedsTried(h, b, tried, n - 1);
    }
  }

  lemma SlotsTried(c0: Book, c: Book)
    requires OnlySlots(c0, c) && AllTried(c0)
    ensures AllTried(c)
  {
    forall id | id in c.infos
      ensures c.infos[id].inTried
    {
      assert id in c0.infos;
    }
  }

  /** With a negative count of new entries all entries are tried ones, so there is nothing to prune. */
  lemma NothingNew(f: File)
    requires f.nNew < 0 && f.news == []
    ensures AllTried(Tables(f))
  {
    hide LoadTrieds, LoadBuckets, OnlySlots, Usable, AllTried;
    NoneTried(f.key, !Usable(f), Short(f.nNew));
    LoadTriedsTried(f.key, NewEntries(f), f.tried, |f.tried|);
    SlotsTriedCount(LoadTrieds(f.key, NewEntries(f), f.tried, |f.tried|), Entries(f).nTried);
    LoadBucketsOnly(f.key, Entries(f), f.buckets, |f.buckets|, |f.news|);
    SlotsTried(Entries(f), LoadBuckets(f.key, Entries(f), f.buckets, |f.buckets|, |f.news|));
  }

  lemma NoneTried(h: Hasher, direct: bool, n: int)
    ensures var b := LoadNews(h, [], 0, direct); AllTried(b.(nNew := b.nNew + n, idCount := b.idCount + n))
  {
  }

  lemma SlotsTriedCount(b: Book, n: int)
    requires AllTried(b)
    ensures AllTried(b.(nTried := n))
  {
  }

  lemma TablesPrunable(f: File)
    requires |f.news| == Times(f.nNew)
    ensures ListOk(Tables(f)) || forall id :: !Homeless(Tables(f), id)
  {
    hide ListOk, Tables;
    if f.nNew >= 0 {
      TablesListed(f);
    } else {
      NothingNew(f);
    }
  }

  lemma OnlyIds(c0: Book, c: Book)
    requires OnlySlots(c0, c)
    ensures c.idCount == c0.idCount
  {
  }

  /** To disk and back: nothing is lost. */
  method SaveAndLoad(m: Manager) returns (ok: bool, m': Manager)
    requires m.Valid()
    ensures fresh(m') && ok && m'.h == m.h && m'.Valid()
    ensures m.nIdCount >= 0 && Same(m.B(), m'.B())
  {
    hide Ok, Written, Read, Same, Accepted, Clean;
    var f := Serialize(m);
    RoundTrip(m.h, m.B());
    WrittenKey(m.h, m.B());
    ok, m' := Unserialize(f, m.isRoutable);
  }
}
