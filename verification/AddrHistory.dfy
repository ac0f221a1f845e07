/** What the manager makes of the history of an address: connections tried and connections made. */
module AddrHistory {
  import opened AddrBook
  import opened AddrMan

  /** A call of Good or of Attempt, for any address. */
  datatype Event = Reached(who: Service, t: int, rnd: nat) | Tried(who: Service, counting: bool, t: int)

  // ---------------------------------------------------------------- the history, looked at from its end

  /** When an address was last reached, whichever. */
  function LastGood(events: seq<Event>, before: int): int {
    if events == [] then before
    else
      var e, past := events[|events| - 1], events[..|events| - 1];
      if e.Reached? then e.t else LastGood(past, before)
  }

  /** When this address was last reached. */
  function LastReached(events: seq<Event>, who: Service, before: int): int {
    if events == [] then before
    else
      var e, past := events[|events| - 1], events[..|events| - 1];
      if e.Reached? && e.who == who then e.t else LastReached(past, who, before)
  }

  /** When this address was last tried or reached. */
  function LastTried(events: seq<Event>, who: Service, before: int): int {
    if events == [] then before
    else
      var e, past := events[|events| - 1], events[..|events| - 1];
      if e.who == who then e.t else LastTried(past, who, before)
  }

  /** What was known before: the last success of any address, the last try of this one that counted, and
      its failures. */
  datatype Before = Before(good: int, counted: int, failures: int)

  /** The last event is a failure to be counted: some address was reached since the last one that was. */
  predicate Counts(e: Event, past: seq<Event>, who: Service, b: Before)
    decreases |past|, 1
  {
    e.Tried? && e.who == who && e.counting && LastCounted(past, who, b) < LastGood(past, b.good)
  }

  function LastCounted(events: seq<Event>, who: Service, b: Before): int
    decreases |events|, 0
  {
    if events == [] then b.counted
    else
      var e, past := events[|events| - 1], events[..|events| - 1];
      if Counts(e, past, who, b) then e.t else LastCounted(past, who, b)
  }

  /** Failures counted since the address was last reached. */
  function Failures(events: seq<Event>, who: Service, b: Before): int
    decreases |events|
  {
    if events == [] then b.failures
    else
      var e, past := events[|events| - 1], events[..|events| - 1];
      if e.Reached? && e.who == who then 0
      else Failures(past, who, b) + if Counts(e, past, who, b) then 1 else 0
  }

  /** Record i' is record i after the events. */
  predicate Follows(i: Info, good: int, events: seq<Event>, i': Info) {
    var b := Before(good, i.lastCountAttempt, i.attempts);
    && i'.who == i.who && i'.source == i.source && i'.time == i.time && i'.services == i.services
    && i'.lastSuccess == LastReached(events, i.who, i.lastSuccess)
    && i'.lastTry == LastTried(events, i.who, i.lastTry)
    && i'.lastCountAttempt == LastCounted(events, i.who, b)
    && i'.attempts == Failures(events, i.who, b)
  }

  // ---------------------------------------------------------------- the manager keeps this history

  /** The record of an entry but for its places in the indexes. */
  predicate SameRecord(i: Info, i': Info) {
    i' == i.(refCount := i'.refCount, inTried := i'.inTried, randomPos := i'.randomPos)
  }

  /** What a step does to the record of an entry. */
  predicate Steps(i: Info, good: int, e: Event, i': Info) {
    if e.who != i.who then SameRecord(i, i')
    else if e.Reached? then SameRecord(i.(lastSuccess := e.t, lastTry := e.t, attempts := 0), i')
    else if e.counting && i.lastCountAttempt < good then
      SameRecord(i.(lastTry := e.t, lastCountAttempt := e.t, attempts := i.attempts + 1), i')
    else SameRecord(i.(lastTry := e.t), i')
  }

  lemma OneOwner(h: Hasher, b: Book, who: Service, id: int)
    requires Ok(h, b, {}, 0) && id in b.infos
    ensures b.infos[id].who == who <==> Knows(b, who) && b.addrs[who.net] == id
  {
    hide TriedOk, NewOk, RefsOk, CountsOk, InfosOk, RandomOk;
  }

  lemma MovedRecord(h: Hasher, b: Book, id: int, b': Book, other: int)
    requires id in b.infos && MovedToTried(h, b, id, b') && other in b'.infos
    ensures other in b.infos && SameRecord(b.infos[other], b'.infos[other])
  {
    hide TriedSlot, NewSlot, AddrBook.Others, EvictedOnly;
    if other != id {
      assert other in b.infos.Keys - {id};
      var t, d := TriedSlot(h, b.infos[id].who), Detached(b, id);
      if t in b.tried {
        var b1 := b'.(infos := b'.infos[id := d.infos[id].(randomPos := b'.infos[id].randomPos)],
            tried := b.tried - {t});
        EvictedRecord(h, d, t, b1, other);
        assert d.infos[other] == b.infos[other] && b1.infos[other] == b'.infos[other];
      }
    }
  }

  lemma EvictedRecord(h: Hasher, b: Book, t: Slot, b': Book, other: int)
    requires t in b.tried && b.tried[t] in b.infos && EvictedOnly(h, b, t, b') && other in b'.infos
    ensures other in b.infos && SameRecord(b.infos[other], b'.infos[other])
  {
    hide NewSlot;
    var y := b.tried[t];
    var s := NewSlot(h, b.infos[y].who, b.infos[y].source);
    assert other in b.infos;
    if other != y && !(s in b.news && other == b.news[s]) {
      assert other in b.infos.Keys - {y} - (if s in b.news then {b.news[s]} else {});
    }
  }

  lemma GoodSteps(h: Hasher, b: Book, e: Event, good: int, b': Book, id: int)
    requires Ok(h, b, {}, 0) && e.Reached? && id in b'.infos
    requires !Knows(b, e.who) ==> b' == b
    requires Knows(b, e.who) ==>
               var x := b.addrs[e.who.net];
               var met := Touched(b, e.who, Met(b.infos[x], e.t));
               if b.infos[x].inTried then b' == met else MovedToTried(h, met, x, b')
    ensures id in b.infos && Steps(b.infos[id], good, e, b'.infos[id])
  {
    hide Ok, MovedToTried;
    if Knows(b, e.who) {
      var x := b.addrs[e.who.net];
      var met := Touched(b, e.who, Met(b.infos[x], e.t));
      if !b.infos[x].inTried {
        MovedRecord(h, met, x, b', id);
      }
    }
    OneOwner(h, b, e.who, id);
  }

  lemma AttemptSteps(h: Hasher, b: Book, e: Event, good: int, b': Book, id: int)
    requires Ok(h, b, {}, 0) && e.Tried? && id in b'.infos
    requires b' == if Knows(b, e.who) then
                     Touched(b, e.who, Attempted(b.infos[b.addrs[e.who.net]], e.counting, e.t, good))
                   else b
    ensures id in b.infos && Steps(b.infos[id], good, e, b'.infos[id])
  {
    hide Ok;
    OneOwner(h, b, e.who, id);
  }

  lemma FollowsNext(i: Info, good: int, events: seq<Event>, e: Event, i1: Info, i': Info)
    requires Follows(i, good, events, i1) && Steps(i1, LastGood(events, good), e, i')
    ensures Follows(i, good, events + [e], i')
  {
    var b := Before(good, i.lastCountAttempt, i.attempts);
    LastsNext(events, e, i.who, i.lastSuccess, i.lastTry);
    CountsNext(events, e, i.who, b);
    hide LastGood, LastReached, LastTried, LastCounted, Failures;
  }

  lemma LastsNext(events: seq<Event>, e: Event, who: Service, success: int, tried: int)
    ensures LastReached(events + [e], who, success)
            == if e.Reached? && e.who == who then e.t else LastReached(events, who, success)
    ensures LastTried(events + [e], who, tried) == if e.who == who then e.t else LastTried(events, who, tried)
  {
    assert (events + [e])[..|events|] == events;
  }

  lemma CountsNext(events: seq<Event>, e: Event, who: Service, b: Before)
    ensures LastCounted(events + [e], who, b) == if Counts(e, events, who, b) then e.t else LastCounted(events, who, b)
    ensures Failures(events + [e], who, b)
            == if e.Reached? && e.who == who then 0
               else Failures(events, who, b) + if Counts(e, events, who, b) then 1 else 0
  {
    assert (events + [e])[..|events|] == events;
  }

  lemma FollowsNothing(i: Info, good: int)
    ensures Follows(i, good, [], i) && LastGood([], good) == good
  {
  }

  /** However the entry is moved about, its record is what the history says, as long as it is there. */
  method Replay(m: Manager, events: seq<Event>, ghost id: int)
    requires m.Valid() && forall k :: 0 <= k < |events| ==> events[k].t > 0
    modifies m
    ensures m.Valid() && m.nLastGood == LastGood(events, old(m.nLastGood))
    ensures id in m.mapInfo ==>
              id in old(m.mapInfo) && Follows(old(m.mapInfo)[id], old(m.nLastGood), events, m.mapInfo[id])
  {
    hide Ok, MovedToTried, Touched, Met, Attempted, Knows, Follows, Steps, LastGood;
    ghost var infos, good := m.mapInfo, m.nLastGood;
    if id in infos {
      FollowsNothing(infos[id], good);
    }
    FollowsNothing(Info(Service(0, 0), 0, 0, 0, 0, 0, 0, 0, 0, false, 0), good);
    assert events[..0] == [];
    for k := 0 to |events|
      invariant m.Valid() && m.nLastGood == LastGood(events[..k], good)
      invariant id in m.mapInfo ==> id in infos && Follows(infos[id], good, events[..k], m.mapInfo[id])
    {
      ghost var b, g := m.B(), m.nLastGood;
      assert events[..k + 1] == events[..k] + [events[k]];
      LastGoodNext(events[..k], events[k], good);
      match events[k]
      case Reached(who, t, rnd) =>
        m.Good(who, t, rnd);
        if id in m.mapInfo {
          GoodSteps(m.h, b, events[k], g, m.B(), id);
          FollowsNext(infos[id], good, events[..k], events[k], b.infos[id], m.mapInfo[id]);
        }
      case Tried(who, counting, t) =>
        m.Attempt(who, counting, t);
        if id in m.mapInfo {
          AttemptSteps(m.h, b, events[k], g, m.B(), id);
          FollowsNext(infos[id], good, events[..k], events[k], b.infos[id], m.mapInfo[id]);
        }
    }
    assert events[..|events|] == events;
  }

  lemma LastGoodNext(events: seq<Event>, e: Event, good: int)
    ensures LastGood(events + [e], good) == if e.Reached? then e.t else LastGood(events, good)
  {
    assert (events + [e])[..|events|] == events;
  }

  // ---------------------------------------------------------------- what follows for an address

  predicate WasReached(events: seq<Event>, who: Service) {
    exists k :: 0 <= k < |events| && events[k].Reached? && events[k].who == who
  }

  /** How often the address was tried, to be counted, since it was last reached. */
  function Tries(events: seq<Event>, who: Service): nat {
    if events == [] then 0
    else
      var e, past := events[|events| - 1], events[..|events| - 1];
      if e.who != who then Tries(past, who)
      else if e.Reached? then 0
      else Tries(past, who) + if e.counting then 1 else 0
  }

  lemma {:induction false} ReachedFacts(events: seq<Event>, who: Service, b: Before, before: int)
    requires WasReached(events, who) && forall k :: 0 <= k < |events| ==> events[k].t > 0
    ensures Failures(events, who, b) <= Tries(events, who) && LastReached(events, who, before) > 0
  {
    var e, past := events[|events| - 1], events[..|events| - 1];
    if !(e.Reached? && e.who == who) {
      var k :| 0 <= k < |events| && events[k].Reached? && events[k].who == who;
      assert past[k] == events[k];
      ReachedFacts(past, who, b, before);
    }
  }

  /** A recent address: not from the future, and seen in the last thirty days. */
  predicate Current(time: int, now: int) { 0 != time <= now + 600 && now - time <= 2592000 }

  /** An address that was reached is worth keeping as long as it is current, however long ago that was,
      unless ten tries have failed since. */
  lemma ReachedLasts(i: Info, good: int, events: seq<Event>, i': Info, now: int)
    requires Follows(i, good, events, i') && forall k :: 0 <= k < |events| ==> events[k].t > 0
    requires WasReached(events, i.who) && Tries(events, i.who) < 10 && Current(i.time, now)
    ensures !IsTerrible(i', now)
  {
    ReachedFacts(events, i.who, Before(good, i.lastCountAttempt, i.attempts), i.lastSuccess);
  }

  /** What makes an address worthless, in terms of its history. */
  lemma Worthless(i: Info, good: int, events: seq<Event>, i': Info, now: int)
    requires Follows(i, good, events, i')
    ensures var who, b := i.who, Before(good, i.lastCountAttempt, i.attempts);
            var tried, reached := LastTried(events, who, i.lastTry), LastReached(events, who, i.lastSuccess);
            IsTerrible(i', now) <==>
              && (tried == 0 || tried < now - 60)
              && (|| !Current(i.time, now)
                  || (Failures(events, who, b) >= 3 && reached == 0)
                  || (Failures(events, who, b) >= 10 && reached < now - 604800))
  {
    hide LastTried, LastReached, Failures;
  }

  // ---------------------------------------------------------------- a network that is down

  /** Times do not go back. */
  predicate InOrder(events: seq<Event>, good: int) {
    && (forall k :: 0 <= k < |events| ==> good <= events[k].t)
    && (forall j, k :: 0 <= j < k < |events| ==> events[j].t <= events[k].t)
  }

  /** How often other addresses were reached since this one was. */
  function Others(events: seq<Event>, who: Service): nat {
    if events == [] then 0
    else
      var e, past := events[|events| - 1], events[..|events| - 1];
      if e.Tried? then Others(past, who) else if e.who == who then 0 else Others(past, who) + 1
  }

  lemma {:induction false} LastGoodIsPast(events: seq<Event>, good: int, t: int)
    requires InOrder(events, good) && good <= t && forall k :: 0 <= k < |events| ==> events[k].t <= t
    ensures LastGood(events, good) <= t
  {
    if events != [] && events[|events| - 1].Tried? {
      LastGoodIsPast(events[..|events| - 1], good, t);
    }
  }

  lemma {:induction false} OneFailureEach(events: seq<Event>, who: Service, b: Before)
    requires InOrder(events, b.good) && WasReached(events, who)
    ensures Failures(events, who, b)
            <= Others(events, who) + if LastCounted(events, who, b) < LastGood(events, b.good) then 0 else 1
  {
    var e, past := events[|events| - 1], events[..|events| - 1];
    if !(e.Reached? && e.who == who) {
      var k :| 0 <= k < |events| && events[k].Reached? && events[k].who == who;
      assert past[k] == events[k];
      OneFailureEach(past, who, b);
      LastGoodIsPast(past, b.good, e.t);
    }
  }

  /** While nothing can be reached, an address that was reached loses no more than one point, however often
      it is tried: failures are counted at most once for every success elsewhere. */
  lemma OutageIsHarmless(events: seq<Event>, who: Service, b: Before)
    requires InOrder(events, b.good) && WasReached(events, who)
    ensures Failures(events, who, b) <= Others(events, who) + 1
  {
    OneFailureEach(events, who, b);
  }
}
