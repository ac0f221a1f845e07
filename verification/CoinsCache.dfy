/** A stack of CCoinsViewCache layers over the coins database.

    Level 0 is the database; level i+1 is the cache layers[i], whose base is level i.  The
    ghost field `plain` holds, for every level, the plain map from txid to unspent coins that
    the level is supposed to stand for; Valid ties the caches, with their DIRTY and FRESH
    flags, to these maps. */
module CoinsCache {
  import opened Utxo

  datatype Entry = Entry(coins: Coins, isDirty: bool, isFresh: bool)

  datatype Layer = Layer(entries: map<Txid, Entry>, usage: int)

  /** An open CCoinsModifier on the topmost cache. */
  datatype Modifier = Modifier(txid: Txid, usage: nat)

  // ---------------------------------------------------------------- one layer against its base

  /** DIRTY and FRESH mean what coins.h says: an entry that is not dirty shows what the base
      shows, and a fresh one has no unspent counterpart there. */
  predicate FlagsOk(e: Entry, base: Option<Coins>) {
    (e.isFresh ==> base == None) && (!e.isDirty ==> Visible(e.coins) == base)
  }

  predicate EntryOk(l: Layer, below: Plain, above: Plain, txid: Txid) {
    if txid in l.entries then
      && FlagsOk(l.entries[txid], Get(below, txid))
      && Trimmed(l.entries[txid].coins.vout)
      && Get(above, txid) == Visible(l.entries[txid].coins)
    else
      Get(above, txid) == Get(below, txid)
  }

  ghost predicate EntriesOk(l: Layer, below: Plain, above: Plain) {
    forall txid :: EntryOk(l, below, above, txid)
  }

  /** Total usage of all cached entries. */
  ghost function SumUsage(entries: map<Txid, Entry>): nat {
    if entries == map[] then 0
    else
      var txid :| txid in entries;
      Usage(entries[txid].coins) + SumUsage(entries - {txid})
  }

  lemma {:induction false} SumWithout(entries: map<Txid, Entry>, txid: Txid)
    requires txid in entries
    ensures SumUsage(entries) == Usage(entries[txid].coins) + SumUsage(entries - {txid})
    decreases |entries|
  {
    var k :| k in entries && SumUsage(entries) == Usage(entries[k].coins) + SumUsage(entries - {k});
    if k != txid {
      SumWithout(entries - {k}, txid);
      SumWithout(entries - {txid}, k);
      assert entries - {k} - {txid} == entries - {txid} - {k};
    }
  }

  lemma SumWith(entries: map<Txid, Entry>, txid: Txid, e: Entry)
    ensures SumUsage(entries[txid := e]) == Usage(e.coins) + SumUsage(entries - {txid})
  {
    SumWithout(entries[txid := e], txid);
    assert entries[txid := e] - {txid} == entries - {txid};
  }

  function EntryUsage(entries: map<Txid, Entry>, txid: Txid): nat {
    if txid in entries then Usage(entries[txid].coins) else 0
  }

  lemma SumSplit(entries: map<Txid, Entry>, txid: Txid)
    ensures SumUsage(entries) == EntryUsage(entries, txid) + SumUsage(entries - {txid})
  {
    if txid in entries {
      SumWithout(entries, txid);
    } else {
      assert entries - {txid} == entries;
    }
  }

  function Find(entries: map<Txid, Entry>, txid: Txid): Option<Entry> {
    if txid in entries then Some(entries[txid]) else None
  }

  // ---------------------------------------------------------------- BatchWrite

  /** What BatchWrite makes of the base cache's own entry, given the child's. */
  function Merge(us: Option<Entry>, e: Entry): Option<Entry> {
    if !e.isDirty then us
    else
      match us
      case None => if e.isFresh && IsPruned(e.coins) then None else Some(Entry(e.coins, true, e.isFresh))
      case Some(u) => if u.isFresh && IsPruned(e.coins) then None else Some(Entry(e.coins, true, u.isFresh))
  }

  /** Drain the child's map into the base cache, one entry after the other, in any order. */
  method BatchWrite(us: Layer, mapCoins: map<Txid, Entry>) returns (r: Layer)
    ensures forall txid :: Find(r.entries, txid) ==
              if txid in mapCoins then Merge(Find(us.entries, txid), mapCoins[txid]) else Find(us.entries, txid)
    ensures r.usage - SumUsage(r.entries) == us.usage - SumUsage(us.entries)
  {
    r := us;
    var todo := mapCoins;
    while todo != map[]
      invariant forall txid :: txid in todo ==> txid in mapCoins && todo[txid] == mapCoins[txid]
      invariant forall txid :: Find(r.entries, txid) ==
                  if txid in mapCoins && txid !in todo then Merge(Find(us.entries, txid), mapCoins[txid])
                      else Find(us.entries, txid)
      invariant r.usage - SumUsage(r.entries) == us.usage - SumUsage(us.entries)
      decreases |todo|
    {
      var txid :| txid in todo;
      r := WriteEntry(r, txid, todo[txid]);
      todo := todo - {txid};
    }
  }

  method WriteEntry(us: Layer, txid: Txid, e: Entry) returns (r: Layer)
    ensures Find(r.entries, txid) == Merge(Find(us.entries, txid), e)
    ensures forall t :: t != txid ==> Find(r.entries, t) == Find(us.entries, t)
    ensures r.usage - SumUsage(r.entries) == us.usage - SumUsage(us.entries)
  {
    r := us;
    if e.isDirty {
      SumSplit(us.entries, txid);
      if txid !in us.entries {
        if !(e.isFresh && IsPruned(e.coins)) {
          var entry := Entry(e.coins, true, e.isFresh);
          SumWith(us.entries, txid, entry);
          r := Layer(us.entries[txid := entry], us.usage + Usage(e.coins));
        }
      } else if us.entries[txid].isFresh && IsPruned(e.coins) {
        r := Layer(us.entries - {txid}, us.usage - Usage(us.entries[txid].coins));
      } else {
        var entry := Entry(e.coins, true, us.entries[txid].isFresh);
        SumWith(us.entries, txid, entry);
        r := Layer(us.entries[txid := entry], us.usage - Usage(us.entries[txid].coins) + Usage(e.coins));
      }
    }
  }

  /** The database keeps unspent entries only. */
  method WriteDatabase(db: Plain, mapCoins: map<Txid, Entry>) returns (r: Plain)
    ensures forall txid :: Get(r, txid) ==
              if txid in mapCoins && mapCoins[txid].isDirty then Visible(mapCoins[txid].coins) else Get(db, txid)
  {
    r := db;
    var todo := mapCoins;
    while todo != map[]
      invariant forall txid :: txid in todo ==> txid in mapCoins && todo[txid] == mapCoins[txid]
      invariant forall txid :: Get(r, txid) ==
                  if txid in mapCoins && txid !in todo && mapCoins[txid].isDirty then Visible(mapCoins[txid].coins)
                      else Get(db, txid)
      decreases |todo|
    {
      var txid :| txid in todo;
      if todo[txid].isDirty {
        r := Put(r, txid, Visible(todo[txid].coins));
      }
      todo := todo - {txid};
    }
  }

  /** Flushing one entry: the base then shows what the child showed, its own flags stay truthful
      towards the level below, and the emptied child agrees with it. */
  lemma MergeIsRight(base: Layer, child: Layer, merged: Layer, below: Plain, mid: Plain, above: Plain, txid: Txid)
    requires EntryOk(base, below, mid, txid) && EntryOk(child, mid, above, txid)
    requires Find(merged.entries, txid) ==
               if txid in child.entries then Merge(Find(base.entries, txid), child.entries[txid])
                   else Find(base.entries, txid)
    ensures EntryOk(merged, below, above, txid)
  {}

  ghost predicate LayerOk(l: Layer, below: Plain, above: Plain, leak: nat) {
    EntriesOk(l, below, above) && l.usage == SumUsage(l.entries) + leak
  }

  /** A layer whose entry m.txid is being modified. */
  ghost predicate OpenOk(l: Layer, below: Plain, above: Plain, leak: nat, m: Modifier) {
    && m.txid in l.entries && l.entries[m.txid].isDirty
    && (l.entries[m.txid].isFresh ==> m.txid !in below)
    && (forall txid :: txid != m.txid ==> EntryOk(l, below, above, txid))
    && l.usage == SumUsage(l.entries - {m.txid}) + m.usage + leak
  }

  /** Marking a new entry FRESH is right exactly when the base has no unspent coins for it, or
      the entry is still unspent at the end: otherwise releasing it makes the base's coins reappear. */
  lemma FreshIsExact(l: Layer, below: Plain, txid: Txid, coins: Coins)
    ensures var e := Entry(Cleanup(coins), true, true);
            var entries := if IsPruned(e.coins) then l.entries - {txid} else l.entries[txid := e];
            var shown := if txid in entries then Visible(entries[txid].coins) else Get(below, txid);
            shown == Visible(Cleanup(coins)) <==> !IsPruned(coins) || txid !in below
  {
    CleanupKeepsOutputs(coins);
  }

  // ---------------------------------------------------------------- the stack

  class CoinsStack {
    var db: Plain
    var layers: seq<Layer>
    var modifier: Option<Modifier>
    ghost var plain: seq<Plain>
    ghost var leaked: seq<nat>   // usage charged to a layer for coins it does not hold any more

    ghost predicate Shape()
      reads this
    {
      && |plain| == |layers| + 1 && |leaked| == |layers|
      && plain[0] == db && Tidy(db)
    }

    /** All layers are in order; no modifier is open. */
    ghost predicate Valid()
      reads this
    {
      && Shape() && modifier == None
      && forall i :: 0 <= i < |layers| ==> LayerOk(layers[i], plain[i], plain[i + 1], leaked[i])
    }

    /** The top layer has one entry under modification; everything else is in order. */
    ghost predicate Modifying()
      reads this
    {
      && Shape() && layers != [] && modifier.Some?
      && var top := |layers| - 1;
         && OpenOk(layers[top], plain[top], plain[top + 1], leaked[top], modifier.value)
         && forall i :: 0 <= i < top ==> LayerOk(layers[i], plain[i], plain[i + 1], leaked[i])
    }

    /** The coins an open modifier refers to. */
    function Current(): Coins
      requires layers != [] && modifier.Some? && modifier.value.txid in layers[|layers| - 1].entries
      reads this
    {
      layers[|layers| - 1].entries[modifier.value.txid].coins
    }

    constructor (db: Plain)
      requires Tidy(db)
      ensures Valid() && plain == [db] && layers == [] && this.db == db
    {
      this.db, layers, modifier := db, [], None;
      plain, leaked := [db], [];
    }

    /** GetCoins at a level, filling the caches on the way. */
    method FetchCoins(level: nat, txid: Txid) returns (r: Option<Coins>)
      requires Valid() && level <= |layers|
      modifies this`layers
      ensures Valid() && |layers| == old(|layers|)
      ensures forall i :: level <= i < |layers| ==> layers[i] == old(layers[i])
      ensures match r
              case None => txid !in plain[level]
              case Some(c) => Trimmed(c.vout) && Visible(c) == Get(plain[level], txid)
      decreases level
    {
      if level == 0 {
        return Get(db, txid);
      }
      var l := layers[level - 1];
      assert LayerOk(l, plain[level - 1], plain[level], leaked[level - 1]);
      assert EntryOk(l, plain[level - 1], plain[level], txid);
      if txid in l.entries {
        return Some(l.entries[txid].coins);
      }
      r := FetchCoins(level - 1, txid);
      if r.Some? {
        var e := Entry(r.value, false, IsPruned(r.value));
        FetchedLayerOk(l, plain[level - 1], plain[level], leaked[level - 1], txid, e);
        layers := layers[level - 1 := Layer(l.entries[txid := e], l.usage + Usage(r.value))];
      }
    }

    /** Whether a level has unspent coins of a transaction; vout.empty() decides, because caches are kept trimmed. */
    method HaveCoins(level: nat, txid: Txid) returns (have: bool)
      requires Valid() && level <= |layers|
      modifies this`layers
      ensures Valid() && |layers| == old(|layers|)
      ensures have <==> txid in plain[level]
    {
      var r := FetchCoins(level, txid);
      if r.Some? {
        TrimmedPruned(r.value);
      }
      have := r.Some? && r.value.vout != [];
    }

    /** Open a modifier on the entry of the top cache, creating it from the base if need be. */
    method ModifyCoins(txid: Txid)
      requires Valid() && layers != []
      modifies this`layers, this`modifier
      ensures Modifying() && |layers| == old(|layers|) && modifier.value.txid == txid
      ensures Trimmed(Current().vout) && Visible(Current()) == Get(plain[|layers|], txid)
    {
      var top := |layers| - 1;
      assert LayerOk(layers[top], plain[top], plain[top + 1], leaked[top]);
      assert EntryOk(layers[top], plain[top], plain[top + 1], txid);
      var entry, usage := Entry(CLEARED, true, true), 0;
      if txid in layers[top].entries {
        entry := layers[top].entries[txid].(isDirty := true);
        usage := Usage(entry.coins);
      } else {
        var r := FetchCoins(top, txid);
        if r.Some? {
          entry := Entry(r.value, true, IsPruned(r.value));
        }
      }
      var l := layers[top];
      OpenedOk(l, plain[top], plain[top + 1], leaked[top], txid, entry);
      layers := layers[top := Layer(l.entries[txid := entry], l.usage)];
      modifier := Some(Modifier(txid, usage));
    }

    /** Open a modifier on a new, empty entry, without asking the base.  Unless it is for a
        coinbase the entry is marked FRESH, so the base must not have unspent coins for it.
        The old usage of a replaced entry is never subtracted: the layer's count stays exact
        if and only if the cache held no unspent coins for the txid. */
    method ModifyNewCoins(txid: Txid, coinbase: bool)
      requires Valid() && layers != []
      requires !coinbase ==> txid !in plain[|layers| - 1]
      modifies this`layers, this`modifier, this`leaked
      ensures Modifying() && |layers| == old(|layers|) && modifier.value.txid == txid
      ensures Current() == CLEARED
      ensures var top := |layers| - 1;
              leaked == old(leaked)[top := old(leaked)[top] + EntryUsage(old(layers)[top].entries, txid)]
      ensures var e := Find(old(layers[|layers| - 1].entries), txid);
              leaked == old(leaked) <==> e.None? || IsPruned(e.value.coins)
    {
      var top := |layers| - 1;
      var l := layers[top];
      assert LayerOk(l, plain[top], plain[top + 1], leaked[top]);
      assert EntryOk(l, plain[top], plain[top + 1], txid);
      var kept := txid in l.entries && l.entries[txid].isFresh;
      var entry := Entry(CLEARED, true, if coinbase then kept else true);
      if txid in l.entries {
        TrimmedPruned(l.entries[txid].coins);
        UsageZero(l.entries[txid].coins);
      }
      RenewedOk(l, plain[top], plain[top + 1], leaked[top], txid, entry);
      layers := layers[top := Layer(l.entries[txid := entry], l.usage)];
      leaked := leaked[top := leaked[top] + EntryUsage(l.entries, txid)];
      modifier := Some(Modifier(txid, 0));
    }

    /** Any change made through the open modifier. */
    method Assign(coins: Coins)
      requires Modifying()
      modifies this`layers
      ensures Modifying() && |layers| == old(|layers|) && Current() == coins
    {
      var top, txid := |layers| - 1, modifier.value.txid;
      var l := layers[top];
      var l' := Layer(l.entries[txid := l.entries[txid].(coins := coins)], l.usage);
      AssignedOk(l, l', plain[top], plain[top + 1], leaked[top], modifier.value);
      layers := layers[top := l'];
    }

    /** The destructor of the modifier: from now on the top level shows the new coins, and
        every other txid and level what it showed before. */
    method Release()
      requires Modifying()
      modifies this`layers, this`modifier, this`plain
      ensures Valid() && |layers| == old(|layers|)
      ensures var txid, now := old(modifier.value.txid), Visible(Cleanup(old(Current())));
              plain == old(plain)[|layers| := Put(old(plain)[|layers|], txid, now)]
    {
      var top, m := |layers| - 1, modifier.value;
      var l := layers[top];
      var e := l.entries[m.txid].(coins := Cleanup(l.entries[m.txid].coins));
      var l' := if e.isFresh && IsPruned(e.coins) then Layer(l.entries - {m.txid}, l.usage - m.usage)
                else Layer(l.entries[m.txid := e], l.usage - m.usage + Usage(e.coins));
      ReleasedOk(l, plain[top], plain[top + 1], leaked[top], m);
      layers := layers[top := l'];
      plain := plain[top + 1 := Put(plain[top + 1], m.txid, Visible(e.coins))];
      modifier := None;
    }

    /** Drop an unmodified entry; no lookup notices. */
    method Uncache(level: nat, txid: Txid)
      requires Valid() && 1 <= level <= |layers|
      modifies this`layers
      ensures Valid() && |layers| == old(|layers|)
    {
      var l := layers[level - 1];
      assert LayerOk(l, plain[level - 1], plain[level], leaked[level - 1]);
      if txid in l.entries && !l.entries[txid].isDirty && !l.entries[txid].isFresh {
        UncachedOk(l, plain[level - 1], plain[level], leaked[level - 1], txid);
        layers := layers[level - 1 := Layer(l.entries - {txid}, l.usage - Usage(l.entries[txid].coins))];
      }
    }

    /** Push a cache's changes to its base: the base then shows what the cache showed, no other
        level shows anything different, and the emptied cache counts no usage at all. */
    method Flush(level: nat)
      requires Valid() && 1 <= level <= |layers|
      modifies this`db, this`layers, this`plain, this`leaked
      ensures Valid() && |layers| == old(|layers|)
      ensures plain == old(plain)[level - 1 := old(plain)[level]]
      ensures layers[level - 1] == Layer(map[], 0) && leaked == old(leaked)[level - 1 := 0]
    {
      var child := layers[level - 1];
      assert LayerOk(child, plain[level - 1], plain[level], leaked[level - 1]);
      EmptyOk(plain[level]);
      if level == 1 {
        db := WriteDatabase(db, child.entries);
        DatabaseFlushed(old(db), child, db, plain[1]);
        layers := layers[0 := Layer(map[], 0)];
      } else {
        var base := BatchWrite(layers[level - 2], child.entries);
        assert LayerOk(layers[level - 2], plain[level - 2], plain[level - 1], leaked[level - 2]);
        LayerFlushed(layers[level - 2], child, base, plain[level - 2], plain[level - 1], plain[level],
          leaked[level - 2]);
        layers := layers[level - 2 := base][level - 1 := Layer(map[], 0)];
      }
      plain := plain[level - 1 := plain[level]];
      leaked := leaked[level - 1 := 0];
    }

    /** A new cache on top of the current one. */
    method Stack()
      requires Valid()
      modifies this`layers, this`plain, this`leaked
      ensures Valid() && layers == old(layers) + [Layer(map[], 0)]
      ensures plain == old(plain) + [old(plain)[old(|layers|)]]
    {
      EmptyOk(plain[|layers|]);
      plain := plain + [plain[|layers|]];
      layers := layers + [Layer(map[], 0)];
      leaked := leaked + [0];
    }

    /** The top cache is destroyed; what was not flushed is forgotten. */
    method Discard()
      requires Valid() && layers != []
      modifies this`layers, this`plain, this`leaked
      ensures Valid() && layers == old(layers)[..old(|layers|) - 1]
      ensures plain == old(plain)[..old(|layers|)]
    {
      var top := |layers| - 1;
      layers, plain, leaked := layers[..top], plain[..top + 1], leaked[..top];
    }
  }

  lemma FetchedLayerOk(l: Layer, below: Plain, above: Plain, leak: nat, txid: Txid, e: Entry)
    requires LayerOk(l, below, above, leak) && txid !in l.entries
    requires Trimmed(e.coins.vout) && Visible(e.coins) == Get(below, txid)
    requires !e.isDirty && e.isFresh == IsPruned(e.coins)
    ensures LayerOk(Layer(l.entries[txid := e], l.usage + Usage(e.coins)), below, above, leak)
  {
    SumWith(l.entries, txid, e);
    assert l.entries - {txid} == l.entries;
    var l' := Layer(l.entries[txid := e], l.usage + Usage(e.coins));
    assert EntryOk(l, below, above, txid);
    forall t
      ensures EntryOk(l', below, above, t)
    {
      assert EntryOk(l, below, above, t);
    }
  }

  lemma OpenedOk(l: Layer, below: Plain, above: Plain, leak: nat, txid: Txid, e: Entry)
    requires LayerOk(l, below, above, leak) && e.isDirty && (e.isFresh ==> txid !in below)
    ensures OpenOk(Layer(l.entries[txid := e], l.usage), below, above, leak,
            Modifier(txid, EntryUsage(l.entries, txid)))
  {
    SumSplit(l.entries, txid);
    assert l.entries[txid := e] - {txid} == l.entries - {txid};
    var l' := Layer(l.entries[txid := e], l.usage);
    forall t | t != txid
      ensures EntryOk(l', below, above, t)
    {
      assert EntryOk(l, below, above, t);
    }
  }

  lemma RenewedOk(l: Layer, below: Plain, above: Plain, leak: nat, txid: Txid, e: Entry)
    requires LayerOk(l, below, above, leak) && e.isDirty && (e.isFresh ==> txid !in below)
    ensures OpenOk(Layer(l.entries[txid := e], l.usage), below, above, leak + EntryUsage(l.entries, txid),
            Modifier(txid, 0))
  {
    OpenedOk(l, below, above, leak, txid, e);
  }

  lemma AssignedOk(l: Layer, l': Layer, below: Plain, above: Plain, leak: nat, m: Modifier)
    requires OpenOk(l, below, above, leak, m) && l'.usage == l.usage
    requires exists c :: l'.entries == l.entries[m.txid := l.entries[m.txid].(coins := c)]
    ensures OpenOk(l', below, above, leak, m)
  {
    assert l'.entries - {m.txid} == l.entries - {m.txid};
    forall t | t != m.txid
      ensures EntryOk(l', below, above, t)
    {
      assert EntryOk(l, below, above, t);
    }
  }

  lemma ReleasedOk(l: Layer, below: Plain, above: Plain, leak: nat, m: Modifier)
    requires OpenOk(l, below, above, leak, m)
    ensures var e := l.entries[m.txid].(coins := Cleanup(l.entries[m.txid].coins));
            var l' := if e.isFresh && IsPruned(e.coins) then Layer(l.entries - {m.txid}, l.usage - m.usage)
                      else Layer(l.entries[m.txid := e], l.usage - m.usage + Usage(e.coins));
            LayerOk(l', below, Put(above, m.txid, Visible(e.coins)), leak)
  {
    var e := l.entries[m.txid].(coins := Cleanup(l.entries[m.txid].coins));
    SumWith(l.entries, m.txid, e);
    var l' := if e.isFresh && IsPruned(e.coins) then Layer(l.entries - {m.txid}, l.usage - m.usage)
              else Layer(l.entries[m.txid := e], l.usage - m.usage + Usage(e.coins));
    forall t
      ensures EntryOk(l', below, Put(above, m.txid, Visible(e.coins)), t)
    {
      if t != m.txid {
        assert EntryOk(l, below, above, t);
      }
    }
  }

  lemma UncachedOk(l: Layer, below: Plain, above: Plain, leak: nat, txid: Txid)
    requires LayerOk(l, below, above, leak)
    requires txid in l.entries && !l.entries[txid].isDirty
    ensures LayerOk(Layer(l.entries - {txid}, l.usage - Usage(l.entries[txid].coins)), below, above, leak)
  {
    SumWithout(l.entries, txid);
    var l' := Layer(l.entries - {txid}, l.usage - Usage(l.entries[txid].coins));
    forall t
      ensures EntryOk(l', below, above, t)
    {
      assert EntryOk(l, below, above, t);
    }
  }

  lemma EmptyOk(level: Plain)
    ensures LayerOk(Layer(map[], 0), level, level, 0)
  {
    forall t
      ensures EntryOk(Layer(map[], 0), level, level, t)
    {}
  }

  lemma LayerFlushed(base: Layer, child: Layer, merged: Layer, below: Plain, mid: Plain, above: Plain, leak: nat)
    requires LayerOk(base, below, mid, leak) && EntriesOk(child, mid, above)
    requires forall txid :: Find(merged.entries, txid) ==
               if txid in child.entries then Merge(Find(base.entries, txid), child.entries[txid])
                   else Find(base.entries, txid)
    requires merged.usage - SumUsage(merged.entries) == base.usage - SumUsage(base.entries)
    ensures LayerOk(merged, below, above, leak)
  {
    forall txid
      ensures EntryOk(merged, below, above, txid)
    {
      assert EntryOk(base, below, mid, txid) && EntryOk(child, mid, above, txid);
      MergeIsRight(base, child, merged, below, mid, above, txid);
    }
  }

  lemma DatabaseFlushed(db: Plain, child: Layer, db': Plain, above: Plain)
    requires Tidy(db) && EntriesOk(child, db, above)
    requires forall txid :: Get(db', txid) ==
               if txid in child.entries && child.entries[txid].isDirty then Visible(child.entries[txid].coins)
                   else Get(db, txid)
    ensures db' == above && Tidy(db')
  {
    forall txid
      ensures Get(db', txid) == Get(above, txid)
      ensures txid in db' ==> Trimmed(db'[txid].vout) && !IsPruned(db'[txid])
    {
      assert EntryOk(child, db, above, txid);
      assert Get(db', txid)
             == if txid in child.entries && child.entries[txid].isDirty then Visible(child.entries[txid].coins)
             else Get(db, txid);
    }
    assert forall txid :: txid in db' <==> Get(db', txid).Some?;
    assert forall txid :: txid in above <==> Get(above, txid).Some?;
    assert forall txid :: txid in db' ==> Get(db', txid) == Some(db'[txid]) && Get(above, txid) == Some(above[txid]);
  }

  const COIN: Coins := Coins(true, false, [Out(1, [1])], 1, 1)

  /** A coinbase that occurs twice before a flush: the cache then charges for coins it does not hold. */
  method ReopenedCoinsLeak() returns (stack: CoinsStack)
    ensures fresh(stack) && stack.Valid() && |stack.layers| == 1
    ensures stack.layers[0].usage > SumUsage(stack.layers[0].entries)
  {
    hide LayerOk, OpenOk, EntryUsage, SumUsage, Cleanup, Visible, IsPruned;
    stack := new CoinsStack(map[]);
    stack.Stack();
    stack.ModifyNewCoins(5, true);
    stack.Assign(COIN);
    stack.Release();
    CoinShows();
    HeldUnspent(stack, 5);
    ghost var leaked := stack.leaked;
    stack.ModifyNewCoins(5, true);
    assert stack.leaked[0] > leaked[0];
    stack.Assign(COIN);
    stack.Release();
    LeakShows(stack);
  }

  lemma LeakShows(stack: CoinsStack)
    requires stack.Valid() && |stack.layers| == 1 && stack.leaked[0] > 0
    ensures stack.layers[0].usage > SumUsage(stack.layers[0].entries)
  {
    assert LayerOk(stack.layers[0], stack.plain[0], stack.plain[1], stack.leaked[0]);
  }

  lemma CoinShows()
    ensures Visible(Cleanup(COIN)) == Some(COIN)
  {
    assert COIN.vout[0] != Null;
  }

  /** Coins that only the cache shows are in the cache, unspent. */
  lemma HeldUnspent(stack: CoinsStack, txid: Txid)
    requires stack.Valid() && |stack.layers| == 1 && txid in stack.plain[1] && txid !in stack.plain[0]
    ensures txid in stack.layers[0].entries && !IsPruned(stack.layers[0].entries[txid].coins)
  {
    assert LayerOk(stack.layers[0], stack.plain[0], stack.plain[1], stack.leaked[0]);
    assert EntryOk(stack.layers[0], stack.plain[0], stack.plain[1], txid);
  }
}
