/** The address manager (src/addrman.cpp, class AddrManImpl). */
module AddrMans {
  import opened Options
  import opened AddrManTables
  import opened AddrManSteps
  import Sums

  const ADDRMAN_HORIZON := 30 * 24 * 3600
  const ADDRMAN_RETRIES := 3
  const ADDRMAN_MAX_FAILURES := 10
  const ADDRMAN_MIN_FAIL := 7 * 24 * 3600
  const ADDRMAN_REPLACEMENT := 4 * 3600
  const ADDRMAN_TEST_WINDOW := 40 * 60

  /** The statistics are bad enough that the entry can just be deleted. */
  predicate IsTerrible(x: AddrInfo, now: int) {
    if now - x.lastTry <= 60 then false
    else if x.time > now + 600 then true
    else if now - x.time > ADDRMAN_HORIZON then true
    else if x.lastSuccess == 0 && x.attempts >= ADDRMAN_RETRIES then true
    else now - x.lastSuccess > ADDRMAN_MIN_FAIL && x.attempts >= ADDRMAN_MAX_FAILURES
  }

  /** A try in the last minute saves an entry, and so does a connection in the last week, unless its time is
      bad. Otherwise more failures never make it better. */
  lemma {:induction false} TerribleLaws(x: AddrInfo, now: int, more: int)
    requires more >= 0
    ensures now - x.lastTry <= 60 ==> !IsTerrible(x, now)
    ensures IsTerrible(x, now) ==> IsTerrible(x.(attempts := x.attempts + more), now)
    ensures now - x.lastTry > 60 && !(now - ADDRMAN_HORIZON <= x.time <= now + 600) ==> IsTerrible(x, now)
    ensures x.lastSuccess > 0 && now - x.lastSuccess <= ADDRMAN_MIN_FAIL
            && now - ADDRMAN_HORIZON <= x.time <= now + 600 ==>
              !IsTerrible(x, now)
    ensures x.attempts < ADDRMAN_RETRIES && now - ADDRMAN_HORIZON <= x.time <= now + 600 ==> !IsTerrible(x, now)
    ensures x.lastSuccess == 0 && x.attempts >= ADDRMAN_RETRIES && now - x.lastTry > 60 ==> IsTerrible(x, now)
    ensures now - x.lastSuccess > ADDRMAN_MIN_FAIL && x.attempts >= ADDRMAN_MAX_FAILURES && now - x.lastTry > 60 ==>
              IsTerrible(x, now)
  {
    var y := x.(attempts := x.attempts + more);
    assert y.lastTry == x.lastTry && y.time == x.time;
  }

  // ---- Clearing a new slot ----

  function Cleared(p: Params, t: Tables, s: Slot): Tables
    requires ClearArguments(t, s)
  {
    if s !in t.newTable then t else
      var u := Unreferenced(t, s);
      if u.infos[t.newTable[s]].refCount == 0 then Deleted(p, u, t.newTable[s]) else u
  }

  lemma {:induction false} FewerExempt(p: Params, infos: Infos, table: Table, exempt: set<nat>, id: nat)
    requires NewOk(p, infos, table, exempt) && (id in infos ==> infos[id].inTried || infos[id].refCount > 0)
    ensures NewOk(p, infos, table, exempt - {id})
  {
    hide NewSlot, Refs;
  }

  lemma {:induction false} MoreExempt(p: Params, infos: Infos, table: Table, exempt: set<nat>, more: set<nat>)
    requires NewOk(p, infos, table, exempt) && exempt <= more
    ensures NewOk(p, infos, table, more)
  {
    hide NewSlot, Refs;
  }

  lemma {:induction false} EntryListed(p: Params, t: Tables, exempt: set<nat>, id: nat)
    requires Consistent(p, t, exempt) && id in t.infos
    ensures t.infos[id].randomPos < |t.random| && t.random[|t.random| - 1] in t.infos
    ensures t.random[t.infos[id].randomPos] == id
  {
    hide NewOk, TriedOk, CountsOk, IndexOk;
  }

  /** Entries other than those deleted keep everything but their position in vRandom. */
  ghost predicate OthersKept(before: Infos, after: Infos) {
    forall j {:trigger after[j]} :: j in after ==>
        j in before && after[j] == before[j].(randomPos := after[j].randomPos, refCount := after[j].refCount)
  }

  /** The slot's entry, if it is one. */
  predicate ClearArguments(t: Tables, s: Slot) {
    s in t.newTable ==>
        t.newTable[s] in t.infos && t.infos[t.newTable[s]].randomPos < |t.random| && t.random[|t.random| - 1] in t.infos
  }

  lemma {:induction false} ClearReady(p: Params, t: Tables, s: Slot, exempt: set<nat>)
    requires Consistent(p, t, exempt)
    ensures ClearArguments(t, s)
  {
    hide Consistent, Unreferenced;
    if s in t.newTable {
      UnreferenceKeeps(p, t, s, exempt);
      EntryListed(p, t, exempt, t.newTable[s]);
    }
  }

  lemma {:induction false} ClearKeeps(p: Params, t: Tables, s: Slot, exempt: set<nat>)
    requires Consistent(p, t, exempt)
    ensures ClearArguments(t, s) && Consistent(p, Cleared(p, t, s), exempt)
  {
    hide Consistent, Deleted;
    ClearReady(p, t, s, exempt);
    if s in t.newTable {
      UnreferenceKeeps(p, t, s, exempt);
      var id, u := t.newTable[s], Unreferenced(t, s);
      assert id in u.infos && !u.infos[id].inTried && u.infos[id].randomPos == t.infos[id].randomPos
          && u.random == t.random;
      hide Unreferenced;
      DropUnreferenced(p, u, id, exempt);
    }
  }

  /** An entry that lost a slot is deleted if it was its last one. */
  lemma {:induction false} DropUnreferenced(p: Params, u: Tables, id: nat, exempt: set<nat>)
    requires Consistent(p, u, exempt + {id}) && id in u.infos && !u.infos[id].inTried
    ensures u.infos[id].refCount == 0 ==>
            u.infos[id].randomPos < |u.random| && u.random[|u.random| - 1] in u.infos
            && Consistent(p, Deleted(p, u, id), exempt)
    ensures u.infos[id].refCount != 0 ==> Consistent(p, u, exempt)
  {
    hide Consistent, Deleted;
    if u.infos[id].refCount == 0 {
      DeleteKeeps(p, u, id, exempt + {id});
      Widen(p, Deleted(p, u, id), exempt + {id} - {id}, exempt);
    } else {
      Narrow(p, u, exempt, id);
    }
  }

  /** Clearing a slot leaves the other slots and entries. */
  ghost predicate ClearedOnly(t: Tables, u: Tables, s: Slot) {
    && s !in u.newTable && u.tried == t.tried && u.idCount == t.idCount && OthersKept(t.infos, u.infos)
        && u.newTable == t.newTable - {s}
    && (forall j {:trigger u.infos[j]} {:trigger t.infos[j]} ::
        j in t.infos && !(s in t.newTable && t.newTable[s] == j) ==>
        j in u.infos && u.infos[j].refCount == t.infos[j].refCount)
  }

  lemma {:induction false} ClearFrame(p: Params, t: Tables, s: Slot)
    requires ClearArguments(t, s)
    ensures ClearedOnly(t, Cleared(p, t, s), s)
  {
    hide Bump;
    if s in t.newTable {
      var id, u := t.newTable[s], Unreferenced(t, s);
      var last := t.random[|t.random| - 1];
      assert forall j :: j in Cleared(p, t, s).infos ==> j in t.infos;
    }
  }

  lemma {:induction false} Widen(p: Params, t: Tables, exempt: set<nat>, more: set<nat>)
    requires Consistent(p, t, exempt) && exempt <= more
    ensures Consistent(p, t, more)
  {
    hide IndexOk, RandomOk, NewOk, TriedOk, CountsOk, TimesOk, AddressesOk;
    MoreExempt(p, t.infos, t.newTable, exempt, more);
  }

  lemma {:induction false} Narrow(p: Params, t: Tables, exempt: set<nat>, id: nat)
    requires Consistent(p, t, exempt + {id}) && (id in t.infos ==> t.infos[id].inTried || t.infos[id].refCount != 0)
    ensures Consistent(p, t, exempt)
  {
    CountNotNegative(p, t, exempt + {id}, id);
    hide IndexOk, RandomOk, NewOk, TriedOk, CountsOk, TimesOk, AddressesOk;
    FewerExempt(p, t.infos, t.newTable, exempt + {id}, id);
    MoreExempt(p, t.infos, t.newTable, exempt + {id} - {id}, exempt);
  }

  lemma {:induction false} CountNotNegative(p: Params, t: Tables, exempt: set<nat>, id: nat)
    requires NewOk(p, t.infos, t.newTable, exempt)
    ensures id in t.infos ==> t.infos[id].refCount >= 0
  {
  }

  // ---- The manager ----

  /** What becomes of a recorded collision. */
  datatype Outcome = Keep | Drop | Replace

  function Resolution(p: Params, t: Tables, idNew: nat, now: int): Outcome {
    if idNew !in t.infos || !p.isValid(t.infos[idNew].addr) then Drop
    else
      var s := TriedSlot(p, t.infos[idNew].addr);
      if s !in t.tried || t.tried[s] !in t.infos then Replace
      else
        var x := t.infos[t.tried[s]];
        if now - x.lastSuccess < ADDRMAN_REPLACEMENT then Drop
        else if now - x.lastTry < ADDRMAN_REPLACEMENT then if now - x.lastTry > 60 then Replace else Keep
        else if now - t.infos[idNew].lastSuccess > ADDRMAN_TEST_WINDOW then Replace else Keep
  }

  /** The entry of a tried slot was connected to not long ago. */
  ghost predicate Protected(t: Tables, s: Slot, now: int) {
    s in t.tried && t.tried[s] in t.infos && now - t.infos[t.tried[s]].lastSuccess < ADDRMAN_REPLACEMENT
  }

  /** Such entries keep their slots. */
  ghost predicate StaysProtected(t: Tables, u: Tables, now: int) {
    forall s {:trigger u.tried[s]} {:trigger t.tried[s]} :: Protected(t, s, now) ==>
        Protected(u, s, now) && u.tried[s] == t.tried[s]
  }

  /** No replacement is due: the occupant of the slot was connected to in the last four hours, or tried in the
      last minute, or not tried for four hours while the newcomer was connected to in the last 40 minutes. */
  ghost predicate NothingDue(p: Params, t: Tables, c: nat, now: int) {
    c in t.infos && p.isValid(t.infos[c].addr) ==>
      var s := TriedSlot(p, t.infos[c].addr);
      && s in t.tried && t.tried[s] in t.infos
      && var x := t.infos[t.tried[s]];
         || now - x.lastSuccess < ADDRMAN_REPLACEMENT
         || now - x.lastTry <= 60
         || (now - x.lastTry >= ADDRMAN_REPLACEMENT && now - t.infos[c].lastSuccess <= ADDRMAN_TEST_WINDOW)
  }

  /** A dropped record is settled: its address is unknown or invalid, or its slot holds an entry that was
      connected to recently. */
  ghost predicate Settled(p: Params, t: Tables, c: nat, now: int) {
    c in t.infos && p.isValid(t.infos[c].addr) ==> Protected(t, TriedSlot(p, t.infos[c].addr), now)
  }

  /** Every tried slot holds what it held, with the same statistics, or a dropped record that called for
      replacement, which then was connected to now. */
  ghost predicate SlotsResolved(p: Params, t0: Tables, t: Tables, dropped: set<nat>, now: int) {
    t.tried.Keys == t0.tried.Keys
    && forall s {:trigger t.tried[s]} :: s in t.tried ==>
         && t.tried[s] in t.infos
         && (|| (t.tried[s] in dropped && Resolution(p, t0, t.tried[s], now) == Replace && Protected(t, s, now))
             || (t.tried[s] == t0.tried[s] && t.tried[s] in t0.infos
                 && SameTimes(t0.infos[t.tried[s]], t.infos[t.tried[s]])))
  }

  predicate SameTimes(x: AddrInfo, y: AddrInfo) {
    x.lastSuccess == y.lastSuccess && x.lastTry == y.lastTry
  }

  /** No entry appeared or changed its address, and only dropped records changed their times. */
  ghost predicate TimesResolved(t0: Tables, t: Tables, dropped: set<nat>) {
    forall j {:trigger t.infos[j]} :: j in t.infos ==>
      && j in t0.infos && t.infos[j].addr == t0.infos[j].addr
      && (j !in dropped ==> SameTimes(t0.infos[j], t.infos[j]))
  }

  /** A slot that an entry without references may take. */
  ghost predicate NewcomerFits(infos: Infos, newTable: Table, s: Slot, now: int) {
    s in newTable && newTable[s] in infos ==> IsTerrible(infos[newTable[s]], now) || infos[newTable[s]].refCount > 1
  }

  /** An entry after hearing of it again: a much newer time is taken over, services are added. */
  function Refreshed(x: AddrInfo, services: set<nat>, time: int, timePenalty: int, now: int): AddrInfo {
    var interval := if now - time < 24 * 3600 then 3600 else 24 * 3600;
    var reduced := if time - timePenalty > 0 then time - timePenalty else 0;
    x.(time := if x.time < time - interval - timePenalty then reduced else x.time, services := x.services + services)
  }

  /** Hearing of an entry again loses no service, never sets its time back, nor later than what was heard
      less the penalty, and touches nothing else. */
  lemma {:induction false} RefreshLaws(x: AddrInfo, services: set<nat>, time: int, timePenalty: int, now: int)
    requires x.time >= 0
    ensures var y := Refreshed(x, services, time, timePenalty, now);
            && x.services <= y.services && services <= y.services
            && x.time <= y.time && (y.time == x.time || y.time == time - timePenalty)
            && (time - timePenalty > x.time + 24 * 3600 ==> y.time == time - timePenalty)
            && (now - time < 24 * 3600 && time - timePenalty > x.time + 3600 ==> y.time == time - timePenalty)
            && (time - timePenalty <= x.time + 3600 ==> y.time == x.time)
            && y == x.(time := y.time, services := y.services)
  {
  }

  /** A new entry, its time reduced by the penalty. */
  function Newcomer(addr: Service, services: set<nat>, time: int, source: Source, timePenalty: int): AddrInfo {
    var reduced := if time - timePenalty > 0 then time - timePenalty else 0;
    AddrInfo(addr, services, reduced, source, 0, 0, 0, 0, 0, false, 0)
  }

  /** An entry with one more reference, listed at a position. */
  function Referred(x: AddrInfo, randomPos: nat): AddrInfo {
    x.(refCount := x.refCount + 1, randomPos := randomPos)
  }

  /** An entry after a successful connection. */
  function Succeeded(x: AddrInfo, time: int): AddrInfo {
    x.(lastSuccess := time, lastTry := time, attempts := 0)
  }

  /** An entry after an attempt to connect; a failure counts once between two successes anywhere. */
  function Attempted(x: AddrInfo, countFailure: bool, time: int, lastGood: int): AddrInfo {
    var y := x.(lastTry := time);
    if !(countFailure && x.lastCountAttempt < lastGood) then y
    else y.(lastCountAttempt := time, attempts := x.attempts + 1)
  }

  /** Whether another reference to a known entry should be tried. */
  predicate Wanted(x: AddrInfo, time: int, luck: bool) {
    time > x.time && !x.inTried && x.refCount != ADDRMAN_NEW_BUCKETS_PER_ADDRESS && (x.refCount <= 0 || luck)
  }

  /** A slot of the new table that an entry may take: it is free, or what is there is terrible, or has
      other references while the entry has none. */
  ghost predicate Replaceable(infos: Infos, newTable: Table, s: Slot, id: nat, now: int) {
    s !in newTable || (newTable[s] != id && id in infos && newTable[s] in infos
                     && (IsTerrible(infos[newTable[s]], now)
                         || (infos[newTable[s]].refCount > 1 && infos[id].refCount == 0)))
  }

  /** The slot of the new table for an address heard of from a source. */
  function HomeSlot(p: Params, a: Service, src: Source): Slot {
    NewSlot(p, a, GetNewBucket(p, a, src))
  }

  /** A tried entry that was sent back: it is in the new table, at the slot of its own source alone. */
  ghost predicate SentBack(p: Params, before: Infos, after: Infos, newTable: Table, e: nat) {
    && e in before && e in after && !after[e].inTried && after[e].refCount == 1
    && var u := HomeSlot(p, before[e].addr, before[e].source); u in newTable && newTable[u] == e
  }

  /** Every recorded collision that still concerns a known address concerns an occupied tried slot. */
  ghost predicate CollisionsOk(p: Params, t: Tables, collisions: set<nat>) {
    && |collisions| <= ADDRMAN_SET_TRIED_COLLISION_SIZE
    && forall c {:trigger c in collisions} :: c in collisions ==>
        c < t.idCount && (c in t.infos ==> TriedSlot(p, t.infos[c].addr) in t.tried)
  }

  /** What every operation respects: no id is reused, an id keeps its address, and a tried slot once
      filled stays filled. */
  ghost predicate Grows(t: Tables, u: Tables) {
    && t.idCount <= u.idCount && t.tried.Keys <= u.tried.Keys
    && forall j {:trigger u.infos[j]} :: j in u.infos && j < t.idCount ==>
        j in t.infos && u.infos[j].addr == t.infos[j].addr
  }

  lemma {:induction false} CollisionsKept(p: Params, t: Tables, u: Tables, collisions: set<nat>)
    requires CollisionsOk(p, t, collisions) && Grows(t, u)
    ensures CollisionsOk(p, u, collisions)
  {
    hide TriedSlot;
  }

  class AddrManImpl {
    const p: Params
    var nIdCount: nat
    var mapInfo: Infos
    var mapAddr: map<Service, nat>
    var vRandom: seq<nat>
    var vvTried: Table
    var vvNew: Table
    var nTried: int
    var nNew: int
    var networkCounts: map<Network, NewTriedCount>
    var lastGood: int
    var triedCollisions: set<nat>

    function View(): Tables
      reads this
    {
      Tables(nIdCount, mapInfo, mapAddr, vRandom, vvTried, vvNew, nTried, nNew, networkCounts)
    }

    ghost predicate Valid()
      reads this
    {
      Consistent(p, View(), {}) && CollisionsOk(p, View(), triedCollisions)
    }

    constructor (p: Params)
      ensures this.p == p && Valid() && mapInfo == map[] && vvTried == map[]
    {
      this.p := p;
      nIdCount, mapInfo, mapAddr, vRandom, vvTried, vvNew := 0, map[], map[], [], map[], map[];
      nTried, nNew, networkCounts, lastGood, triedCollisions := 0, 0, map[], 1, {};
      new;
      EmptyConsistent(p, View());
    }

    function Find(addr: Service): Option<nat>
      reads this
    {
      if addr in mapAddr && mapAddr[addr] in mapInfo then Some(mapAddr[addr]) else None
    }

    lemma {:induction false} FindExact(addr: Service, exempt: set<nat>)
      requires Consistent(p, View(), exempt)
      ensures Find(addr).None? <==> addr !in mapAddr
      ensures Find(addr).Some? ==>
              Find(addr).value in mapInfo && mapInfo[Find(addr).value].addr == addr && Find(addr).value < nIdCount
    {
      hide NewOk, TriedOk, CountsOk, RandomOk;
    }

    /** A new entry, in no bucket yet. */
    method Create(addr: Service, services: set<nat>, time: int, source: Source, ghost exempt: set<nat>)
        returns (id: nat)
      requires Consistent(p, View(), exempt) && addr !in mapAddr && p.routable(addr)
      modifies this`nIdCount, this`mapInfo, this`mapAddr, this`vRandom, this`nNew, this`networkCounts
      ensures id == old(nIdCount) && id !in old(mapInfo) && Consistent(p, View(), exempt + {id})
      ensures View() == Created(p, old(View()), AddrInfo(addr, services, time, source, 0, 0, 0, 0, 0, false, 0))
    {
      hide Consistent;
      var x := AddrInfo(addr, services, time, source, 0, 0, 0, 0, 0, false, |vRandom|);
      CreateKeeps(p, View(), x, exempt);
      id := nIdCount;
      nIdCount := nIdCount + 1;
      mapInfo := mapInfo[id := x];
      mapAddr := mapAddr[addr := id];
      vRandom := vRandom + [id];
      nNew := nNew + 1;
      networkCounts := Bump(networkCounts, p.network(addr), 1, 0);
    }

    method SwapRandom(pos1: nat, pos2: nat)
      requires pos1 < |vRandom| && pos2 < |vRandom| && RandomOk(mapInfo, vRandom)
      modifies this`vRandom, this`mapInfo
      ensures RandomOk(mapInfo, vRandom)
      ensures vRandom == old(vRandom)[pos1 := old(vRandom)[pos2]][pos2 := old(vRandom)[pos1]]
      ensures old(vRandom)[pos1] in old(mapInfo) && old(vRandom)[pos2] in old(mapInfo)
      ensures var id1, id2 := old(vRandom)[pos1], old(vRandom)[pos2];
              var m := old(mapInfo)[id1 := old(mapInfo)[id1].(randomPos := pos2)];
              mapInfo == m[id2 := old(mapInfo)[id2].(randomPos := pos1)]
    {
      if pos1 == pos2 { return; }
      var id1, id2 := vRandom[pos1], vRandom[pos2];
      mapInfo := mapInfo[id1 := mapInfo[id1].(randomPos := pos2)];
      mapInfo := mapInfo[id2 := mapInfo[id2].(randomPos := pos1)];
      vRandom := vRandom[pos1 := id2];
      vRandom := vRandom[pos2 := id1];
    }

    /** Delete an entry that is in no bucket. */
    method Delete(id: nat, ghost exempt: set<nat>)
      requires Consistent(p, View(), exempt) && id in mapInfo && !mapInfo[id].inTried && mapInfo[id].refCount == 0
      modifies this`mapInfo, this`mapAddr, this`vRandom, this`nNew, this`networkCounts
      ensures Consistent(p, View(), exempt - {id})
      ensures old(mapInfo)[id].randomPos < |old(vRandom)| && old(vRandom)[|old(vRandom)| - 1] in old(mapInfo)
      ensures View() == Deleted(p, old(View()), id)
    {
      hide Consistent, RandomOk, Bump, Unlisted, Moved;
      DeleteKeeps(p, View(), id, exempt);
      RandomPart(p, View(), exempt);
      var info := mapInfo[id];
      EntryAt(mapInfo, vRandom, id);
      ghost var t := View();
      SwapRandom(info.randomPos, |vRandom| - 1);
      networkCounts := Bump(networkCounts, p.network(info.addr), -1, 0);
      vRandom := vRandom[..|vRandom| - 1];
      mapAddr := mapAddr - {info.addr};
      mapInfo := mapInfo - {id};
      nNew := nNew - 1;
      SwappedOut(t, id);
    }

    /** Empty a slot of the new table; delete its entry if that was the last reference. */
    method ClearNew(s: Slot, ghost exempt: set<nat>)
      requires Consistent(p, View(), exempt)
      modifies this`mapInfo, this`mapAddr, this`vRandom, this`nNew, this`networkCounts, this`vvNew
      ensures Consistent(p, View(), exempt) && ClearedOnly(old(View()), View(), s)
    {
      hide Consistent, ClearedOnly, Deleted;
      ClearKeeps(p, View(), s, exempt);
      ClearFrame(p, View(), s);
      if s in vvNew {
        UnreferenceKeeps(p, View(), s, exempt);
        var id := vvNew[s];
        mapInfo := mapInfo[id := mapInfo[id].(refCount := mapInfo[id].refCount - 1)];
        vvNew := vvNew - {s};
        if mapInfo[id].refCount == 0 { Delete(id, exempt + {id}); }
      }
    }

    /** Remove an entry from all new buckets. */
    method RemoveFromNew(id: nat)
      requires Consistent(p, View(), {}) && id in mapInfo && !mapInfo[id].inTried
      modifies this`mapInfo, this`vvNew
      ensures Consistent(p, View(), {id}) && mapInfo == old(mapInfo)[id := old(mapInfo)[id].(refCount := 0)]
    {
      hide Consistent, NewSlot, Unreferenced, BucketAt, NotInBuckets;
      NoneLooked(p, vvNew, id, mapInfo[id].addr, GetNewBucket(p, mapInfo[id].addr, mapInfo[id].source));
      var addr := mapInfo[id].addr;
      var startBucket := GetNewBucket(p, addr, mapInfo[id].source);
      Widen(p, View(), {}, {id});
      var n := 0;
      while n < ADDRMAN_NEW_BUCKET_COUNT
        invariant 0 <= n <= ADDRMAN_NEW_BUCKET_COUNT && Consistent(p, View(), {id})
        invariant id in mapInfo && mapInfo == old(mapInfo)[id := old(mapInfo)[id].(refCount := mapInfo[id].refCount)]
        invariant NotInBuckets(p, vvNew, id, addr, startBucket, n)
      {
        var bucket := BucketAt(startBucket, n);
        var s := NewSlot(p, addr, bucket);
        if s in vvNew && vvNew[s] == id {
          UnreferenceStep(p, View(), s, id);
          NotInFewer(p, vvNew, s, id, addr, startBucket, n);
          vvNew := vvNew - {s};
          mapInfo := mapInfo[id := mapInfo[id].(refCount := mapInfo[id].refCount - 1)];
          if mapInfo[id].refCount == 0 { return; }
        }
        NotInNext(p, vvNew, id, addr, startBucket, n);
        n := n + 1;
      }
      NowhereLeft(p, View(), id, startBucket);
    }

    /** Move an entry from the new to the tried table, sending the one there back to new. */
    method MakeTried(id: nat)
      requires Consistent(p, View(), {}) && id in mapInfo && !mapInfo[id].inTried && mapInfo[id].lastSuccess != 0
      modifies this
      ensures Consistent(p, View(), {}) && Grows(old(View()), View())
      ensures triedCollisions == old(triedCollisions) && lastGood == old(lastGood)
      ensures id in mapInfo
      ensures mapInfo[id] == old(mapInfo)[id].(inTried := true, refCount := 0, randomPos := mapInfo[id].randomPos)
      ensures KeepsRecords(old(mapInfo), mapInfo)
      ensures var s := TriedSlot(p, old(mapInfo)[id].addr);
              vvTried == old(vvTried)[s := id]
                  && (s in old(vvTried) ==> SentBack(p, old(mapInfo), mapInfo, vvNew, old(vvTried)[s]))
    {
      hide Consistent, TriedSlot, Promoted, Grows, KeepsRecords, HomeSlot;
      ghost var t := View();
      RemoveFromNew(id);
      ghost var t1 := View();
      var s := TriedSlot(p, mapInfo[id].addr);
      KeptSelf(mapInfo);
      if s in vvTried {
        TriedEntry(p, View(), {id}, s);
        Evict(s, id);
      }
      ghost var u := View();
      Promote(id, s);
      GrownBy(t, t1, u, View(), id, s);
    }

    method Promote(id: nat, s: Slot)
      requires Consistent(p, View(), {id}) && id in mapInfo && !mapInfo[id].inTried
      requires mapInfo[id].refCount == 0 && mapInfo[id].lastSuccess != 0
      requires s == TriedSlot(p, mapInfo[id].addr) && s !in vvTried
      modifies this`vvTried, this`nTried, this`nNew, this`mapInfo, this`networkCounts
      ensures Consistent(p, View(), {}) && mapInfo == old(mapInfo)[id := old(mapInfo)[id].(inTried := true)]
      ensures vvTried == old(vvTried)[s := id]
    {
      hide Consistent, TriedSlot, Promoted;
      PromoteKeeps(p, View(), id, {id});
      var info := mapInfo[id];
      ghost var u := View();
      vvTried := vvTried[s := id];
      nTried, nNew := nTried + 1, nNew - 1;
      mapInfo := mapInfo[id := info.(inTried := true)];
      networkCounts := Bump(networkCounts, p.network(info.addr), -1, 1);
      PromotedIs(p, u, View(), id);
      assert {id} - {id} == {};
    }

    /** Send the entry of a tried slot back to the new table. */
    method Evict(s: Slot, ghost id: nat)
      requires Consistent(p, View(), {id}) && s in vvTried && id in mapInfo && !mapInfo[id].inTried
      requires mapInfo[id].refCount == 0
      modifies this`mapInfo, this`mapAddr, this`vRandom, this`vvTried, this`nTried, this`nNew, this`networkCounts,
          this`vvNew
      ensures Consistent(p, View(), {id}) && vvTried == old(vvTried) - {s} && id in mapInfo
      ensures KeepsRecords(old(mapInfo), mapInfo)
      ensures mapInfo[id] == old(mapInfo)[id].(randomPos := mapInfo[id].randomPos)
      ensures old(vvTried)[s] != id && SentBack(p, old(mapInfo), mapInfo, vvNew, old(vvTried)[s])
    {
      hide Consistent, TriedSlot, HomeSlot, Demoted, Referenced;
      ghost var t0 := View();
      var idEvict := vvTried[s];
      TriedEntry(p, View(), {id}, s);
      DemoteKeeps(p, View(), idEvict, {id});
      var infoOld := mapInfo[idEvict];
      mapInfo := mapInfo[idEvict := infoOld.(inTried := false)];
      vvTried := vvTried - {s};
      nTried, nNew := nTried - 1, nNew + 1;
      networkCounts := Bump(networkCounts, p.network(infoOld.addr), 1, -1);
      DemotedIs(p, t0, View(), idEvict);
      assert {id} + {idEvict} == {id, idEvict};
      PlaceEvicted(idEvict, id);
    }

    /** Put an evicted entry into its new bucket, in place of what is there. */
    method PlaceEvicted(idEvict: nat, ghost id: nat)
      requires Consistent(p, View(), {id, idEvict}) && id != idEvict && id in mapInfo && idEvict in mapInfo
      requires !mapInfo[id].inTried && mapInfo[id].refCount == 0 && !mapInfo[idEvict].inTried
      requires mapInfo[idEvict].refCount == 0
      modifies this`mapInfo, this`mapAddr, this`vRandom, this`nNew, this`networkCounts, this`vvNew
      ensures Consistent(p, View(), {id}) && id in mapInfo && KeepsRecords(old(mapInfo), mapInfo)
      ensures mapInfo[id] == old(mapInfo)[id].(randomPos := mapInfo[id].randomPos)
      ensures SentBack(p, old(mapInfo), mapInfo, vvNew, idEvict)
    {
      hide Consistent, NewSlot, Referenced;
      var infoOld := mapInfo[idEvict];
      var bucket := GetNewBucket(p, infoOld.addr, infoOld.source);
      var u := NewSlot(p, infoOld.addr, bucket);
      ghost var t1 := View();
      NewSlotOf(p, infoOld.addr, infoOld.source);
      SlotOfOther(p, View(), {id, idEvict}, u);
      ClearNew(u, {id, idEvict});
      ClearedEntries(t1, View(), u, id, idEvict);
      ReferenceKeeps(p, View(), u, idEvict, {id, idEvict});
      ghost var t2 := View();
      mapInfo := mapInfo[idEvict := mapInfo[idEvict].(refCount := 1)];
      vvNew := vvNew[u := idEvict];
      ReferencedIs(t2, View(), u, idEvict);
      assert {id, idEvict} - {idEvict} == {id};
    }

    // ---- Operations ----

    /** Put an entry into its slot of a new bucket, unless a better one is there. */
    method PlaceNew(id: nat, s: Slot, now: int) returns (inserted: bool)
      requires Consistent(p, View(), {id}) && id in mapInfo && !mapInfo[id].inTried
      requires mapInfo[id].refCount < ADDRMAN_NEW_BUCKETS_PER_ADDRESS
      requires s.bucket < ADDRMAN_NEW_BUCKET_COUNT && s == NewSlot(p, mapInfo[id].addr, s.bucket)
      modifies this`mapInfo, this`mapAddr, this`vRandom, this`nNew, this`networkCounts, this`vvNew
      ensures Consistent(p, View(), {}) && KeepsRecords(old(mapInfo), mapInfo)
      ensures inserted <==> Replaceable(old(mapInfo), old(vvNew), s, id, now)
      ensures inserted ==> vvNew == old(vvNew)[s := id] && id in mapInfo
                           && mapInfo[id] == old(mapInfo)[id].(refCount := old(mapInfo)[id].refCount + 1,
                               randomPos := mapInfo[id].randomPos)
      ensures !inserted ==> vvNew == old(vvNew)
      ensures !inserted && old(mapInfo)[id].refCount > 0 ==> View() == old(View())
      ensures !inserted && old(mapInfo)[id].refCount == 0 ==> id !in mapInfo && mapInfo.Keys == old(mapInfo).Keys - {id}
    {
      hide Consistent, NewSlot, KeepsRecords, Deleted, Referenced;
      assert {} + {id} == {id};
      SlotOfOther(p, View(), {id}, s);
      KeptSelf(mapInfo);
      inserted := s !in vvNew;
      if s in vvNew && vvNew[s] == id {
        Narrow(p, View(), {}, id);
        return;
      }
      if !inserted {
        var existing := mapInfo[vvNew[s]];
        if IsTerrible(existing, now) || (existing.refCount > 1 && mapInfo[id].refCount == 0) { inserted := true; }
      }
      ghost var t := View();
      if inserted {
        ClearNew(s, {id});
        ClearedOther(t, View(), s, id);
        hide ClearedOnly;
        ReferenceKeeps(p, View(), s, id, {id});
        ghost var t2 := View();
        mapInfo := mapInfo[id := mapInfo[id].(refCount := mapInfo[id].refCount + 1)];
        vvNew := vvNew[s := id];
        ReferencedIs(t2, View(), s, id);
        KeptOne(t.infos, t2.infos, id, mapInfo[id]);
        assert {id} - {id} == {};
      } else if mapInfo[id].refCount == 0 {
        Delete(id, {id});
        DeletedAddresses(p, t, id);
        assert {id} - {id} == {};
      } else {
        Narrow(p, View(), {}, id);
      }
    }

    /** Replace an entry's statistics. */
    method Touch(id: nat, x: AddrInfo, ghost exempt: set<nat>)
      requires Consistent(p, View(), exempt) && id in mapInfo && SameEntry(x, mapInfo[id]) && GoodTimes(x)
      modifies this`mapInfo
      ensures Consistent(p, View(), exempt) && mapInfo == old(mapInfo)[id := x]
    {
      hide Consistent;
      TouchKeeps(p, View(), id, x, exempt);
      mapInfo := mapInfo[id := x];
    }

    /** Update a known address; whether another reference to it should be tried. */
    method UpdateKnown(id: nat, services: set<nat>, time: int, timePenalty: int, now: int, luck: bool)
        returns (proceed: bool)
      requires Consistent(p, View(), {}) && id in mapInfo
      modifies this`mapInfo
      ensures Consistent(p, View(), {}) && Grows(old(View()), View())
      ensures mapInfo == old(mapInfo)[id := Refreshed(old(mapInfo)[id], services, time, timePenalty, now)]
      ensures proceed <==> Wanted(mapInfo[id], time, luck)
    {
      hide Consistent, Grows;
      ghost var t := View();
      var info := mapInfo[id];
      GoodEntry(p, View(), {}, id);
      var interval := if now - time < 24 * 3600 then 3600 else 24 * 3600;
      if info.time < time - interval - timePenalty {
        info := info.(time := if time - timePenalty > 0 then time - timePenalty else 0);
      }
      info := info.(services := info.services + services);
      Touch(id, info, {});
      TouchedGrows(p, t, View(), id);
      proceed := time > info.time && !info.inTried && info.refCount != ADDRMAN_NEW_BUCKETS_PER_ADDRESS
          && (info.refCount <= 0 || luck);
    }

    /** A new entry, its time reduced by the penalty. */
    method CreateNew(addr: Service, services: set<nat>, time: int, source: Source, timePenalty: int) returns (id: nat)
      requires Consistent(p, View(), {}) && addr !in mapAddr && p.routable(addr)
      modifies this`nIdCount, this`mapInfo, this`mapAddr, this`vRandom, this`nNew, this`networkCounts
      ensures Consistent(p, View(), {id}) && Grows(old(View()), View())
      ensures id == old(nIdCount) && id !in old(mapInfo) && mapInfo.Keys == old(mapInfo).Keys + {id}
      ensures mapInfo - {id} == old(mapInfo) - {id}
      ensures mapInfo[id] == Newcomer(addr, services, time, source, timePenalty).(randomPos := mapInfo[id].randomPos)
    {
      hide Consistent, Grows, Bump;
      ghost var t := View();
      id := Create(addr, services, time, source, {});
      assert {} + {id} == {id};
      GoodEntry(p, View(), {id}, id);
      var x := mapInfo[id].(time := if time - timePenalty > 0 then time - timePenalty else 0);
      Touch(id, x, {id});
      CreatedGrows(p, t, View(), id);
    }

    /** Add an address heard of from `source`. `luck` is the outcome of the stochastic test. */
    method AddSingle(addr: Service, services: set<nat>, time: int, source: Source, selfAnnounced: bool, penalty: int,
        now: int, luck: bool)
      returns (added: bool)
      requires Valid()
      modifies this
      ensures Valid() && Grows(old(View()), View()) && vvTried == old(vvTried)
      ensures triedCollisions == old(triedCollisions)
      ensures added ==> addr in mapAddr && vvNew == old(vvNew)[HomeSlot(p, addr, source) := mapAddr[addr]]
      ensures !added ==> vvNew == old(vvNew)
      ensures !p.routable(addr) ==> !added && View() == old(View())
      ensures p.routable(addr) && addr !in old(mapAddr) ==>
              (added <==> NewcomerFits(old(mapInfo), old(vvNew), HomeSlot(p, addr, source), now))
      ensures p.routable(addr) && addr !in old(mapAddr) && !added ==> mapInfo.Keys == old(mapInfo).Keys
      ensures p.routable(addr) && addr in old(mapAddr) ==> old(mapAddr)[addr] in old(mapInfo)
      ensures p.routable(addr) && addr in old(mapAddr) ==>
                var id := old(mapAddr)[addr];
                var x := Refreshed(old(mapInfo)[id], services, time, if selfAnnounced then 0 else penalty, now);
                && (added <==>
                    Wanted(x, time, luck) && Replaceable(old(mapInfo)[id := x], old(vvNew), HomeSlot(p, addr, source),
                    id, now))
                && (!added ==> mapInfo == old(mapInfo)[id := x])
      ensures added ==> mapAddr[addr] in mapInfo
      ensures added ==>
                var id, timePenalty := mapAddr[addr], if selfAnnounced then 0 else penalty;
                if addr in old(mapAddr) && old(mapAddr)[addr] in old(mapInfo)
                then id == old(mapAddr)[addr]
                     && mapInfo[id] == Referred(Refreshed(old(mapInfo)[id], services, time, timePenalty, now),
                                                mapInfo[id].randomPos)
                else mapInfo[id] == Referred(Newcomer(addr, services, time, source, timePenalty), mapInfo[id].randomPos)
      ensures forall j {:trigger mapInfo[j]} :: j in mapInfo && mapInfo[j].addr != addr ==>
                j in old(mapInfo) && SameRecord(old(mapInfo)[j], mapInfo[j])
    {
      hide Consistent, HomeSlot, CollisionsOk, Grows, KeepsRecords, NewcomerFits, Replaceable, Refreshed, Wanted;
      ghost var t := View();
      GrowsSelf(p, t);
      if !p.routable(addr) { return false; }
      var id, wanted := FindOrCreate(addr, services, time, source, if selfAnnounced then 0 else penalty, now, luck);
      CollisionsKept(p, t, View(), triedCollisions);
      KeptSelf(mapInfo);
      OthersSame(t.infos, mapInfo, mapInfo, id, addr);
      if !wanted { return false; }
      HomeSlotOf(p, addr, source);
      ghost var u := View();
      var s := HomeSlot(p, addr, source);
      added := PlaceNew(id, s, now);
      OthersSame(t.infos, u.infos, mapInfo, id, addr);
      GrowsThen(t, u, View());
      CollisionsKept(p, t, View(), triedCollisions);
      if added {
        FindBack(p, View(), id, addr);
        KeptAddress(u.infos, mapInfo, id);
      }
    }

    /** The entry of a routable address, heard of again or made now. `wanted` tells whether it is to be
        placed. */
    method FindOrCreate(addr: Service, services: set<nat>, time: int, source: Source, timePenalty: int, now: int,
        luck: bool)
      returns (id: nat, wanted: bool)
      requires Valid() && p.routable(addr)
      modifies this`nIdCount, this`mapInfo, this`mapAddr, this`vRandom, this`nNew, this`networkCounts
      ensures Consistent(p, View(), if wanted then {id} else {}) && Grows(old(View()), View())
      ensures id in mapInfo && mapInfo[id].addr == addr && mapInfo - {id} == old(mapInfo) - {id}
      ensures wanted ==> !mapInfo[id].inTried && 0 <= mapInfo[id].refCount < ADDRMAN_NEW_BUCKETS_PER_ADDRESS
      ensures addr in old(mapAddr) ==>
                && id == old(mapAddr)[addr] && id in old(mapInfo)
                && mapInfo == old(mapInfo)[id := Refreshed(old(mapInfo)[id], services, time, timePenalty, now)]
                && (wanted <==> Wanted(mapInfo[id], time, luck)) && (wanted ==> mapInfo[id].refCount > 0)
      ensures addr !in old(mapAddr) ==>
                && wanted && id !in old(mapInfo) && mapInfo.Keys == old(mapInfo).Keys + {id}
                && mapInfo[id]
                   == Newcomer(addr, services, time, source, timePenalty).(randomPos := mapInfo[id].randomPos)
                && (Replaceable(mapInfo, vvNew, HomeSlot(p, addr, source), id, now)
                    <==> NewcomerFits(old(mapInfo), vvNew, HomeSlot(p, addr, source), now))
    {
      hide Consistent, HomeSlot, CollisionsOk, Grows, NewcomerFits, Replaceable;
      ghost var t := View();
      FindExact(addr, {});
      var found := Find(addr);
      if found.Some? {
        id := found.value;
        wanted := UpdateKnown(id, services, time, timePenalty, now, luck);
        assert mapInfo - {id} == t.infos - {id};
        HasReference(p, View(), id);
        Widen(p, View(), {}, {id});
      } else {
        id := CreateNew(addr, services, time, source, timePenalty);
        wanted := true;
        SlotOfOther(p, t, {}, HomeSlot(p, addr, source));
        NewcomerIs(t.infos, mapInfo, vvNew, HomeSlot(p, addr, source), id, now);
      }
      RefBound(p, View(), {id}, id);
    }

    /** Record a good connection, and move the address to tried if its slot is free or `test` is
        not asked for; otherwise remember the collision. */
    method Good_(addr: Service, testBeforeEvict: bool, time: int) returns (moved: bool)
      requires Valid() && time > 0
      modifies this
      ensures Valid() && Grows(old(View()), View())
      ensures moved ==> addr in mapAddr && mapAddr[addr] in mapInfo && mapInfo[mapAddr[addr]].inTried
      ensures addr !in old(mapAddr) ==> View() == old(View()) && !moved
      ensures moved <==>
              addr in old(mapAddr) && old(mapAddr)[addr] in old(mapInfo) && !old(mapInfo)[old(mapAddr)[addr]].inTried
                         && !(testBeforeEvict && TriedSlot(p, addr) in old(vvTried))
      ensures lastGood == time
      ensures addr in old(mapAddr) && old(mapAddr)[addr] in old(mapInfo) && !moved ==>
                var id := old(mapAddr)[addr];
                    mapInfo == old(mapInfo)[id := Succeeded(old(mapInfo)[id], time)] && vvTried == old(vvTried)
                    && vvNew == old(vvNew)
      ensures addr in old(mapAddr) && old(mapAddr)[addr] in old(mapInfo) ==>
                var id := old(mapAddr)[addr];
                KeepsRecords(old(mapInfo)[id := Succeeded(old(mapInfo)[id], time)], mapInfo)
      ensures moved ==> var id, s := old(mapAddr)[addr], TriedSlot(p, addr);
                vvTried == old(vvTried)[s := id] && id in mapInfo && mapInfo[id].lastSuccess == time
                    && mapInfo[id].lastTry == time && mapInfo[id].attempts == 0
                && (s in old(vvTried) ==>
                    SentBack(p, old(mapInfo)[id := Succeeded(old(mapInfo)[id], time)], mapInfo, vvNew, old(vvTried)[s]))
      ensures triedCollisions ==
                if testBeforeEvict && addr in old(mapAddr) && old(mapAddr)[addr] in old(mapInfo)
                   && !old(mapInfo)[old(mapAddr)[addr]].inTried && TriedSlot(p, addr) in old(vvTried)
                   && |old(triedCollisions)| < ADDRMAN_SET_TRIED_COLLISION_SIZE
                then old(triedCollisions) + {old(mapAddr)[addr]} else old(triedCollisions)
    {
      hide Consistent, TriedSlot, CollisionsOk, Grows, SentBack;
      ghost var t := View();
      lastGood := time;
      GrowsSelf(p, t);
      FindExact(addr, {});
      var found := Find(addr);
      if found.None? { return false; }
      var id := found.value;
      var info := Succeeded(mapInfo[id], time);
      Touch(id, info, {});
      TouchedGrows(p, t, View(), id);
      CollisionsKept(p, t, View(), triedCollisions);
      HasReference(p, View(), id);
      if info.inTried || info.refCount <= 0 { return false; }
      var s := TriedSlot(p, info.addr);
      if testBeforeEvict && s in vvTried {
        if |triedCollisions| < ADDRMAN_SET_TRIED_COLLISION_SIZE {
          CollisionAdded(p, View(), triedCollisions, id);
          triedCollisions := triedCollisions + {id};
        }
        return false;
      }
      ghost var u := View();
      MakeTried(id);
      GrowsTrans(t, u, View());
      CollisionsKept(p, t, View(), triedCollisions);
      FindBack(p, View(), id, addr);
      GrowsAddress(u, View(), id);
      return true;
    }

    method Attempt_(addr: Service, countFailure: bool, time: int)
      requires Valid() && time >= 0
      modifies this`mapInfo
      ensures Valid() && Grows(old(View()), View())
      ensures mapInfo == if Find(addr).None? then old(mapInfo)
                         else var id := mapAddr[addr];
                             old(mapInfo)[id := Attempted(old(mapInfo)[id], countFailure, time, lastGood)]
    {
      hide Consistent, CollisionsOk, Grows;
      ghost var t := View();
      GrowsSelf(p, t);
      FindExact(addr, {});
      var found := Find(addr);
      if found.None? { return; }
      var id := found.value;
      GoodEntry(p, t, {}, id);
      var info := mapInfo[id].(lastTry := time);
      if countFailure && info.lastCountAttempt < lastGood {
        info := info.(lastCountAttempt := time, attempts := info.attempts + 1);
      }
      Touch(id, info, {});
      TouchedGrows(p, t, View(), id);
      CollisionsKept(p, t, View(), triedCollisions);
    }

    method Connected_(addr: Service, time: int)
      requires Valid()
      modifies this`mapInfo
      ensures Valid() && Grows(old(View()), View())
      ensures mapInfo == if Find(addr).None? || time - old(mapInfo)[mapAddr[addr]].time <= 20 * 60 then old(mapInfo)
                         else var id := mapAddr[addr]; old(mapInfo)[id := old(mapInfo)[id].(time := time)]
    {
      hide Consistent, CollisionsOk, Grows;
      ghost var t := View();
      GrowsSelf(p, t);
      FindExact(addr, {});
      var found := Find(addr);
      if found.None? { return; }
      var id := found.value;
      GoodEntry(p, t, {}, id);
      if time - mapInfo[id].time > 20 * 60 {
        Touch(id, mapInfo[id].(time := time), {});
        TouchedGrows(p, t, View(), id);
        CollisionsKept(p, t, View(), triedCollisions);
      }
    }

    method SetServices_(addr: Service, services: set<nat>)
      requires Valid()
      modifies this`mapInfo
      ensures Valid() && Grows(old(View()), View())
      ensures mapInfo == if Find(addr).None? then old(mapInfo)
                         else var id := mapAddr[addr]; old(mapInfo)[id := old(mapInfo)[id].(services := services)]
    {
      hide Consistent, CollisionsOk, Grows;
      ghost var t := View();
      GrowsSelf(p, t);
      FindExact(addr, {});
      var found := Find(addr);
      if found.None? { return; }
      var id := found.value;
      GoodEntry(p, t, {}, id);
      Touch(id, mapInfo[id].(services := services), {});
      TouchedGrows(p, t, View(), id);
      CollisionsKept(p, t, View(), triedCollisions);
    }

    /** Resolve one recorded collision. The slot concerned is occupied, so the case of a collision that
        is none any more does not arise. */
    method ResolveOne(idNew: nat, now: int) returns (erase: bool)
      requires Valid() && now > 0 && idNew in triedCollisions
      modifies this
      ensures Valid() && Grows(old(View()), View()) && triedCollisions == old(triedCollisions)
      ensures erase <==> Resolution(p, old(View()), idNew, now) != Keep
      ensures Resolution(p, old(View()), idNew, now) != Replace ==> View() == old(View())
      ensures Resolution(p, old(View()), idNew, now) == Replace ==>
                && idNew in old(mapInfo) && idNew in mapInfo
                && vvTried == old(vvTried)[TriedSlot(p, old(mapInfo)[idNew].addr) := idNew]
                && KeepsRecords(old(mapInfo)[idNew := Succeeded(old(mapInfo)[idNew], now)], mapInfo)
      ensures StaysProtected(old(View()), View(), now)
      ensures erase ==> Settled(p, View(), idNew, now)
    {
      hide Consistent, TriedSlot, CollisionsOk, Grows, KeepsRecords, SentBack, StaysProtected;
      GrowsSelf(p, View());
      ProtectedSelf(View(), now);
      erase := idNew !in mapInfo;
      if !erase {
        var infoNew := mapInfo[idNew];
        var s := TriedSlot(p, infoNew.addr);
        CollidesWith(p, View(), triedCollisions, idNew);
        FindBack(p, View(), idNew, infoNew.addr);
        var infoOld := mapInfo[vvTried[s]];
        if !p.isValid(infoNew.addr) || now - infoOld.lastSuccess < ADDRMAN_REPLACEMENT {
          erase := true;
        } else if now - infoOld.lastTry < ADDRMAN_REPLACEMENT {
          if now - infoOld.lastTry > 60 {
            ReplaceWith(idNew, s, now);
            erase := true;
          }
        } else if now - infoNew.lastSuccess > ADDRMAN_TEST_WINDOW {
          ReplaceWith(idNew, s, now);
          erase := true;
        }
      }
    }

    /** Move an address to tried, evicting what is at its slot. */
    method ReplaceWith(idNew: nat, s: Slot, now: int)
      requires Valid() && now > 0 && idNew in mapInfo && s == TriedSlot(p, mapInfo[idNew].addr)
      requires s in vvTried && vvTried[s] in mapInfo
      requires mapInfo[idNew].addr in mapAddr && mapAddr[mapInfo[idNew].addr] == idNew
      requires now - mapInfo[vvTried[s]].lastSuccess >= ADDRMAN_REPLACEMENT
      modifies this
      ensures Valid() && Grows(old(View()), View()) && triedCollisions == old(triedCollisions)
      ensures vvTried == old(vvTried)[s := idNew] && idNew in mapInfo
      ensures KeepsRecords(old(mapInfo)[idNew := Succeeded(old(mapInfo)[idNew], now)], mapInfo)
      ensures StaysProtected(old(View()), View(), now)
      ensures Settled(p, View(), idNew, now)
    {
      hide Consistent, TriedSlot, CollisionsOk, Grows, SentBack, StaysProtected;
      ghost var t := View();
      if mapInfo[idNew].inTried { TriedAt(p, t, idNew); }
      var _ := Good_(mapInfo[idNew].addr, false, now);
      AllTriedKnown(p, View());
      ReplacedProtects(t, View(), idNew, s, now);
      assert mapInfo[idNew].addr == t.infos[idNew].addr && mapInfo[idNew].lastSuccess == now;
    }

    /** Resolve the recorded collisions. An address that was connected to recently keeps its place. A record
        is kept only if nothing was due, and then nothing is; a dropped one is settled; and tried slots change
        only for dropped records that called for it. */
    method ResolveCollisions_(now: int)
      requires Valid() && now > 0
      modifies this
      ensures Valid() && Grows(old(View()), View()) && triedCollisions <= old(triedCollisions)
      ensures StaysProtected(old(View()), View(), now)
      ensures forall c {:trigger c in triedCollisions} :: c in triedCollisions ==>
                Resolution(p, old(View()), c, now) == Keep && NothingDue(p, View(), c, now)
      ensures forall c {:trigger c in triedCollisions} :: c in old(triedCollisions) - triedCollisions ==>
                Settled(p, View(), c, now)
      ensures SlotsResolved(p, old(View()), View(), old(triedCollisions) - triedCollisions, now)
    {
      hide Consistent, TriedSlot, CollisionsOk, StaysProtected, Grows, Resolution, Settled, SlotsResolved,
          TimesResolved, KeepsRecords, NothingDue;
      ghost var t0, all := View(), triedCollisions;
      GrowsSelf(p, t0);
      ProtectedSelf(t0, now);
      ResolveStart(p, t0, now);
      var rest := triedCollisions;
      assert all - all == {};
      while rest != {}
        invariant Valid() && Grows(t0, View()) && rest <= triedCollisions <= all && StaysProtected(t0, View(), now)
        invariant forall c {:trigger c in triedCollisions} :: c in triedCollisions - rest ==>
                    Resolution(p, t0, c, now) == Keep
        invariant forall c {:trigger c in triedCollisions} :: c in all - triedCollisions ==> Settled(p, View(), c, now)
        invariant SlotsResolved(p, t0, View(), all - triedCollisions, now)
        invariant TimesResolved(t0, View(), all - triedCollisions)
        decreases |rest|
      {
        var idNew := Sums.First(rest);
        ghost var t, dropped := View(), all - triedCollisions;
        ResolutionLater(p, t0, t, triedCollisions, dropped, now, idNew);
        if idNew in mapInfo { CollidesWith(p, t, triedCollisions, idNew); }
        var erase := ResolveOne(idNew, now);
        GrowsTrans(t0, t, View());
        ProtectedTrans(t0, t, View(), now);
        forall c | c in dropped ensures Settled(p, View(), c, now) { StaysSettled(p, t, View(), all, t0, c, now); }
        if erase {
          FewerCollisions(p, View(), triedCollisions, idNew);
          triedCollisions := triedCollisions - {idNew};
          assert all - triedCollisions == dropped + {idNew};
          ResolveStep(p, t0, t, View(), dropped, idNew, now);
        }
        rest := rest - {idNew};
      }
      forall c | c in triedCollisions ensures NothingDue(p, View(), c, now) {
        ResolutionLater(p, t0, View(), triedCollisions, all - triedCollisions, now, c);
        NotReplaced(p, View(), triedCollisions, c, now);
      }
    }

    /** The address occupying the slot that a recorded collision is about, to be tested. The tables
        do not change; only a stale record is dropped. */
    method SelectTriedCollision_(idNew: nat) returns (r: Option<(Service, int)>)
      requires Valid() && (triedCollisions != {} ==> idNew in triedCollisions)
      modifies this`triedCollisions
      ensures Valid() && r.Some? == (triedCollisions != {} && idNew in mapInfo && idNew in triedCollisions)
      ensures r.Some? ==>
              idNew in old(triedCollisions) && r.value.0 in mapAddr && mapAddr[r.value.0] in mapInfo
              && mapInfo[mapAddr[r.value.0]].inTried
                          && TriedSlot(p, r.value.0) == TriedSlot(p, mapInfo[idNew].addr)
                              && r.value.1 == mapInfo[mapAddr[r.value.0]].lastTry
      ensures triedCollisions == if old(triedCollisions) == {}
              || idNew in mapInfo then old(triedCollisions) else old(triedCollisions) - {idNew}
    {
      hide Consistent, TriedSlot, CollisionsOk;
      if triedCollisions == {} { return None; }
      if idNew !in mapInfo {
        FewerCollisions(p, View(), triedCollisions, idNew);
        triedCollisions := triedCollisions - {idNew};
        return None;
      }
      var s := TriedSlot(p, mapInfo[idNew].addr);
      CollidesWith(p, View(), triedCollisions, idNew);
      var idOld := vvTried[s];
      var infoOld := mapInfo[idOld];
      FindBack(p, View(), idOld, infoOld.addr);
      TriedEntry(p, View(), {}, s);
      return Some((infoOld.addr, infoOld.lastTry));
    }
  }

  /** Entries may disappear or change places, but keep what is known about them. */
  ghost predicate KeepsRecords(before: Infos, after: Infos) {
    forall j {:trigger after[j]} :: j in after ==> j in before && SameRecord(before[j], after[j])
  }

  /** Everything but where the entry is. */
  predicate SameRecord(x: AddrInfo, y: AddrInfo) {
    y == x.(randomPos := y.randomPos, refCount := y.refCount, inTried := y.inTried)
  }

  // ---- Facts for the operations ----

  lemma {:induction false} GrowsSelf(p: Params, t: Tables)
    ensures Grows(t, t)
  {
  }

  lemma {:induction false} GrowsThen(t: Tables, u: Tables, v: Tables)
    requires Grows(t, u) && KeepsRecords(u.infos, v.infos) && v.tried == u.tried && v.idCount == u.idCount
    ensures Grows(t, v)
  {
  }

  lemma {:induction false} TouchedGrows(p: Params, t: Tables, u: Tables, id: nat)
    requires id in t.infos && id in u.infos && u.infos == t.infos[id := u.infos[id]]
    requires u.infos[id].addr == t.infos[id].addr
    requires u.tried == t.tried && u.idCount == t.idCount
    ensures Grows(t, u)
  {
  }

  lemma {:induction false} CreatedGrows(p: Params, t: Tables, u: Tables, id: nat)
    requires id == t.idCount && id in u.infos && u.infos == t.infos[id := u.infos[id]] && u.tried == t.tried
    requires u.idCount == t.idCount + 1
    ensures Grows(t, u)
  {
  }

  lemma {:induction false} GrowsTrans(t: Tables, u: Tables, v: Tables)
    requires Grows(t, u) && Grows(u, v)
    ensures Grows(t, v)
  {
  }

  lemma {:induction false} GrowsAddress(t: Tables, u: Tables, id: nat)
    requires Grows(t, u) && id in u.infos && id < t.idCount
    ensures id in t.infos && u.infos[id].addr == t.infos[id].addr
  {
  }

  lemma {:induction false} CollisionAdded(p: Params, t: Tables, collisions: set<nat>, id: nat)
    requires CollisionsOk(p, t, collisions) && |collisions| < ADDRMAN_SET_TRIED_COLLISION_SIZE
    requires id < t.idCount && id in t.infos && TriedSlot(p, t.infos[id].addr) in t.tried
    ensures CollisionsOk(p, t, collisions + {id})
  {
    hide TriedSlot;
  }

  lemma {:induction false} FewerCollisions(p: Params, t: Tables, collisions: set<nat>, id: nat)
    requires CollisionsOk(p, t, collisions) && id in collisions
    ensures CollisionsOk(p, t, collisions - {id})
  {
    hide TriedSlot;
  }

  /** A recorded collision of a known address is with an entry of the tried table. */
  lemma {:induction false} CollidesWith(p: Params, t: Tables, collisions: set<nat>, id: nat)
    requires Consistent(p, t, {}) && CollisionsOk(p, t, collisions) && id in collisions && id in t.infos
    ensures var s := TriedSlot(p, t.infos[id].addr);
            s in t.tried && t.tried[s] in t.infos && t.infos[t.tried[s]].inTried
    ensures p.routable(t.infos[id].addr)
  {
    hide TriedSlot;
    assert p.routable(t.infos[id].addr);
    TriedEntry(p, t, {}, TriedSlot(p, t.infos[id].addr));
  }

  lemma {:induction false} GoodEntry(p: Params, t: Tables, exempt: set<nat>, id: nat)
    requires Consistent(p, t, exempt) && id in t.infos
    ensures GoodTimes(t.infos[id])
  {
    hide IndexOk, RandomOk, NewOk, TriedOk, CountsOk, AddressesOk;
  }

  lemma {:induction false} HasReference(p: Params, t: Tables, id: nat)
    requires Consistent(p, t, {}) && id in t.infos
    ensures !t.infos[id].inTried ==> t.infos[id].refCount > 0
  {
    hide IndexOk, RandomOk, TriedOk, CountsOk, AddressesOk, TimesOk;
  }

  lemma {:induction false} RefBound(p: Params, t: Tables, exempt: set<nat>, id: nat)
    requires Consistent(p, t, exempt) && id in t.infos
    ensures 0 <= t.infos[id].refCount <= ADDRMAN_NEW_BUCKETS_PER_ADDRESS
  {
    hide IndexOk, RandomOk, TriedOk, CountsOk, AddressesOk, TimesOk;
  }

  lemma {:induction false} FindBack(p: Params, t: Tables, id: nat, addr: Service)
    requires Consistent(p, t, {}) && id in t.infos
    ensures t.infos[id].addr in t.index && t.index[t.infos[id].addr] == id
  {
    hide RandomOk, NewOk, TriedOk, CountsOk, AddressesOk, TimesOk;
  }

  lemma {:induction false} KeptAddress(before: Infos, after: Infos, id: nat)
    requires KeepsRecords(before, after) && id in after
    ensures id in before && after[id].addr == before[id].addr
  {
  }

  lemma {:induction false} KeptOne(before: Infos, mid: Infos, id: nat, x: AddrInfo)
    requires KeepsRecords(before, mid) && id in mid
    requires x == mid[id].(randomPos := x.randomPos, refCount := x.refCount, inTried := x.inTried)
    ensures KeepsRecords(before, mid[id := x])
  {
    assert mid[id].(randomPos := x.randomPos, refCount := x.refCount, inTried := x.inTried) == x;
  }

  lemma {:induction false} DeletedAddresses(p: Params, t: Tables, id: nat)
    requires id in t.infos && t.infos[id].randomPos < |t.random| && t.random[|t.random| - 1] in t.infos
    ensures KeepsRecords(t.infos, Deleted(p, t, id).infos) && Deleted(p, t, id).newTable == t.newTable
    ensures Deleted(p, t, id).infos.Keys == t.infos.Keys - {id}
  {
  }

  lemma {:induction false} ClearedOther(t: Tables, u: Tables, s: Slot, id: nat)
    requires ClearedOnly(t, u, s) && id in t.infos && (s in t.newTable ==> t.newTable[s] != id)
    ensures id in u.infos && u.infos[id] == t.infos[id].(randomPos := u.infos[id].randomPos)
    ensures KeepsRecords(t.infos, u.infos)
    ensures s !in u.newTable && u.newTable == t.newTable - {s}
  {
  }

  lemma {:induction false} KeptKnown(p: Params, t: Tables, u: Tables, collisions: set<nat>, id: nat)
    requires CollisionsOk(p, t, collisions) && id in collisions && Grows(t, u) && id in u.infos
    ensures id in t.infos
  {
    hide TriedSlot;
    assert u.infos[id] == u.infos[id];
  }

  lemma {:induction false} TriedAt(p: Params, t: Tables, id: nat)
    requires Consistent(p, t, {}) && id in t.infos && t.infos[id].inTried
    ensures var s := TriedSlot(p, t.infos[id].addr); s in t.tried && t.tried[s] == id
  {
    hide IndexOk, RandomOk, NewOk, CountsOk, TriedSlot;
  }

  lemma {:induction false} ResolveStart(p: Params, t: Tables, now: int)
    requires Consistent(p, t, {})
    ensures SlotsResolved(p, t, t, {}, now) && TimesResolved(t, t, {})
  {
    hide Consistent;
    AllTriedKnown(p, t);
  }

  /** What becomes of a record that has not been dropped: the same as at first, unless it can be dropped now. */
  lemma {:induction false} ResolutionLater(p: Params, t0: Tables, t: Tables, collisions: set<nat>, dropped: set<nat>,
      now: int, c: nat)
    requires SlotsResolved(p, t0, t, dropped, now) && TimesResolved(t0, t, dropped) && c in collisions && c !in dropped
    requires CollisionsOk(p, t, collisions)
    ensures Resolution(p, t, c, now) == Drop || Resolution(p, t, c, now) == Resolution(p, t0, c, now)
  {
    hide TriedSlot;
    if c in t.infos && p.isValid(t.infos[c].addr) {
      assert t.infos[c].addr == t0.infos[c].addr;
      var s := TriedSlot(p, t.infos[c].addr);
      assert s in t.tried && t.tried[s] in t.infos;
    }
  }

  lemma {:induction false} NotReplaced(p: Params, t: Tables, collisions: set<nat>, c: nat, now: int)
    requires c in collisions && CollisionsOk(p, t, collisions) && Resolution(p, t, c, now) != Replace
    ensures NothingDue(p, t, c, now)
  {
    hide TriedSlot;
  }

  lemma {:induction false} StaysSettled(p: Params, t: Tables, u: Tables, collisions: set<nat>, t0: Tables, c: nat,
      now: int)
    requires Settled(p, t, c, now) && Grows(t, u) && Grows(t0, t) && StaysProtected(t, u, now)
    requires CollisionsOk(p, t0, collisions) && c in collisions
    ensures Settled(p, u, c, now)
  {
    hide TriedSlot;
    if c in u.infos {
      assert u.infos[c].addr == t.infos[c].addr;
      var s := TriedSlot(p, u.infos[c].addr);
      assert Protected(t, s, now) ==> t.tried[s] == u.tried[s];
    }
  }

  lemma {:induction false} ResolveStep(p: Params, t0: Tables, t: Tables, u: Tables, dropped: set<nat>, id: nat,
      now: int)
    requires SlotsResolved(p, t0, t, dropped, now) && TimesResolved(t0, t, dropped) && id !in dropped
    requires Resolution(p, t, id, now) == Drop || Resolution(p, t, id, now) == Resolution(p, t0, id, now)
    requires Resolution(p, t, id, now) != Replace ==> u == t
    requires Resolution(p, t, id, now) == Replace ==>
               && id in t.infos && id in u.infos
               && TriedSlot(p, t.infos[id].addr) in t.tried && u.tried == t.tried[TriedSlot(p, t.infos[id].addr) := id]
               && KeepsRecords(t.infos[id := Succeeded(t.infos[id], now)], u.infos)
    requires Consistent(p, u, {})
    ensures SlotsResolved(p, t0, u, dropped + {id}, now) && TimesResolved(t0, u, dropped + {id})
  {
    hide TriedSlot, Resolution, Consistent, KeepsRecords, Succeeded;
    AllTriedKnown(p, u);
    if Resolution(p, t, id, now) == Replace {
      TimesReplaced(t, u, id, now);
      assert forall r {:trigger u.tried[r]} :: r in u.tried && r != TriedSlot(p, t.infos[id].addr) ==>
        u.tried[r] == t.tried[r];
    }
  }

  lemma {:induction false} TimesReplaced(t: Tables, u: Tables, id: nat, now: int)
    requires id in t.infos && KeepsRecords(t.infos[id := Succeeded(t.infos[id], now)], u.infos)
    ensures forall j {:trigger u.infos[j]} :: j in u.infos ==>
              && j in t.infos && u.infos[j].addr == t.infos[j].addr
              && if j == id then u.infos[j].lastSuccess == now else SameTimes(t.infos[j], u.infos[j])
  {
  }

  lemma {:induction false} ProtectedSelf(t: Tables, now: int)
    ensures StaysProtected(t, t, now)
  {
  }

  lemma {:induction false} ProtectedTrans(t: Tables, u: Tables, v: Tables, now: int)
    requires StaysProtected(t, u, now) && StaysProtected(u, v, now)
    ensures StaysProtected(t, v, now)
  {
  }

  /** Replacing an entry that was not connected to recently. */
  lemma {:induction false} ReplacedProtects(t: Tables, u: Tables, id: nat, s: Slot, now: int)
    requires id in t.infos && KeepsRecords(t.infos[id := Succeeded(t.infos[id], now)], u.infos) && !Protected(t, s, now)
    requires u.tried == t.tried || u.tried == t.tried[s := id]
    requires forall r {:trigger u.tried[r]} :: r in u.tried ==> u.tried[r] in u.infos
    ensures StaysProtected(t, u, now)
  {
    forall r | Protected(t, r, now)
      ensures Protected(u, r, now) && u.tried[r] == t.tried[r]
    {
      assert r in u.tried && u.tried[r] == t.tried[r];
    }
  }

  lemma {:induction false} AllTriedKnown(p: Params, t: Tables)
    requires Consistent(p, t, {})
    ensures forall r {:trigger t.tried[r]} :: r in t.tried ==> t.tried[r] in t.infos
  {
    hide IndexOk, RandomOk, NewOk, CountsOk, TriedSlot;
  }

  // ---- Facts for MakeTried ----

  lemma {:induction false} KeptSelf(infos: Infos)
    ensures KeepsRecords(infos, infos)
  {
  }

  lemma {:induction false} GrownBy(t: Tables, t1: Tables, u: Tables, v: Tables, id: nat, s: Slot)
    requires id in t.infos && t1.infos == t.infos[id := t.infos[id].(refCount := 0)] && t1.tried == t.tried
    requires t1.idCount == t.idCount
    requires KeepsRecords(t1.infos, u.infos) && u.idCount == t.idCount
    requires (u.tried == t.tried || u.tried == t.tried - {s})
    requires id in u.infos && v.infos == u.infos[id := u.infos[id].(inTried := true)]
    requires v.tried == u.tried[s := id] && v.idCount == u.idCount
    ensures Grows(t, v) && KeepsRecords(t.infos, v.infos)
  {
  }

  function BucketAt(start: nat, k: nat): nat {
    (start + k) % ADDRMAN_NEW_BUCKET_COUNT
  }

  ghost predicate NotAt(p: Params, table: Table, id: nat, addr: Service, bucket: nat) {
    NewSlot(p, addr, bucket) in table ==> table[NewSlot(p, addr, bucket)] != id
  }

  ghost predicate NotInBuckets(p: Params, table: Table, id: nat, addr: Service, start: nat, n: nat) {
    forall k: nat {:trigger BucketAt(start, k)} :: k < n ==> NotAt(p, table, id, addr, BucketAt(start, k))
  }

  lemma {:induction false} NotInFewer(p: Params, table: Table, s: Slot, id: nat, addr: Service, start: nat, n: nat)
    requires NotInBuckets(p, table, id, addr, start, n)
    ensures NotInBuckets(p, table - {s}, id, addr, start, n)
  {
    hide NewSlot, BucketAt;
  }

  lemma {:induction false} NotInNext(p: Params, table: Table, id: nat, addr: Service, start: nat, n: nat)
    requires NotInBuckets(p, table, id, addr, start, n) && NotAt(p, table, id, addr, BucketAt(start, n))
    ensures NotInBuckets(p, table, id, addr, start, n + 1)
  {
    hide NotAt, BucketAt;
  }

  lemma {:induction false} NoneLooked(p: Params, table: Table, id: nat, addr: Service, start: nat)
    ensures NotInBuckets(p, table, id, addr, start, 0)
  {
  }

  lemma {:induction false} EveryBucket(start: nat, b: nat) returns (k: nat)
    requires b < ADDRMAN_NEW_BUCKET_COUNT
    ensures k < ADDRMAN_NEW_BUCKET_COUNT && BucketAt(start, k) == b
  {
    var r := start % ADDRMAN_NEW_BUCKET_COUNT;
    k := if r <= b then b - r else b + ADDRMAN_NEW_BUCKET_COUNT - r;
  }

  /** Having looked at every bucket, no reference is left. */
  lemma {:induction false} NowhereLeft(p: Params, t: Tables, id: nat, start: nat)
    requires Consistent(p, t, {id}) && id in t.infos
    requires NotInBuckets(p, t.newTable, id, t.infos[id].addr, start, ADDRMAN_NEW_BUCKET_COUNT)
    ensures t.infos[id].refCount == 0
  {
    hide NewSlot, BucketAt, IndexOk, RandomOk, TriedOk, CountsOk;
    forall b: nat | b < ADDRMAN_NEW_BUCKET_COUNT ensures NotAt(p, t.newTable, id, t.infos[id].addr, b) {
      var k := EveryBucket(start, b);
    }
    forall s | s in t.newTable ensures t.newTable[s] != id {
      assert NotAt(p, t.newTable, id, t.infos[id].addr, s.bucket);
    }
    assert Refs(t.newTable, id) == {};
  }

  lemma {:induction false} UnreferenceStep(p: Params, t: Tables, s: Slot, id: nat)
    requires Consistent(p, t, {id}) && s in t.newTable && t.newTable[s] == id && id in t.infos
    ensures Consistent(p, t.(infos := t.infos[id := t.infos[id].(refCount := t.infos[id].refCount - 1)],
            newTable := t.newTable - {s}), {id})
  {
    hide Consistent;
    UnreferenceKeeps(p, t, s, {id});
    assert {id} + {id} == {id};
  }

  lemma {:induction false} NewSlotOf(p: Params, a: Service, src: Source)
    ensures GetNewBucket(p, a, src) < ADDRMAN_NEW_BUCKET_COUNT
    ensures NewSlot(p, a, GetNewBucket(p, a, src)).bucket == GetNewBucket(p, a, src)
  {
  }

  lemma {:induction false} OthersSame(t: Infos, u: Infos, v: Infos, id: nat, addr: Service)
    requires KeepsRecords(u, v) && id in u && u[id].addr == addr && u - {id} == t - {id}
    ensures forall j {:trigger v[j]} :: j in v && v[j].addr != addr ==> j in t && SameRecord(t[j], v[j])
  {
    forall j {:trigger v[j]} | j in v && v[j].addr != addr ensures j in t && SameRecord(t[j], v[j]) {
      assert j in u && j != id && j in u - {id} && (u - {id})[j] == u[j];
      assert j in t - {id} && (t - {id})[j] == t[j];
    }
  }

  lemma {:induction false} NewcomerIs(before: Infos, after: Infos, newTable: Table, s: Slot, id: nat, now: int)
    requires id !in before && id in after && after - {id} == before - {id} && after[id].refCount == 0
    requires (s in newTable ==> newTable[s] in before)
    ensures Replaceable(after, newTable, s, id, now) <==> NewcomerFits(before, newTable, s, now)
  {
    hide IsTerrible;
    if s in newTable {
      var j := newTable[s];
      assert j in before - {id} && (before - {id})[j] == before[j] && (after - {id})[j] == after[j];
    }
  }

  lemma {:induction false} HomeSlotOf(p: Params, a: Service, src: Source)
    ensures var s := HomeSlot(p, a, src); s.bucket < ADDRMAN_NEW_BUCKET_COUNT && s == NewSlot(p, a, s.bucket)
  {
  }

  lemma {:induction false} TriedEntry(p: Params, t: Tables, exempt: set<nat>, s: Slot)
    requires Consistent(p, t, exempt) && s in t.tried
    ensures t.tried[s] in t.infos && t.infos[t.tried[s]].inTried && s == TriedSlot(p, t.infos[t.tried[s]].addr)
  {
    hide IndexOk, RandomOk, NewOk, CountsOk, TriedSlot;
  }

  /** An entry in a new slot has references, so it is not one of those that have none. */
  lemma {:induction false} SlotOfOther(p: Params, t: Tables, exempt: set<nat>, s: Slot)
    requires Consistent(p, t, exempt)
    ensures s in t.newTable ==> t.newTable[s] in t.infos && t.infos[t.newTable[s]].refCount > 0
  {
    if s in t.newTable { UnreferenceKeeps(p, t, s, exempt); }
  }

  lemma {:induction false} ClearedEntries(t: Tables, u: Tables, s: Slot, a: nat, b: nat)
    requires ClearedOnly(t, u, s) && a in t.infos && b in t.infos && t.infos[a].refCount == 0
    requires t.infos[b].refCount == 0
    requires s in t.newTable ==> t.newTable[s] in t.infos && t.infos[t.newTable[s]].refCount > 0
    ensures a in u.infos && u.infos[a] == t.infos[a].(randomPos := u.infos[a].randomPos)
    ensures b in u.infos && u.infos[b] == t.infos[b].(randomPos := u.infos[b].randomPos)
    ensures KeepsRecords(t.infos, u.infos) && u.tried == t.tried && s !in u.newTable
  {
  }

  lemma {:induction false} DemotedIs(p: Params, t: Tables, u: Tables, id: nat)
    requires id in t.infos && u
            == t.(infos := t.infos[id := t.infos[id].(inTried := false)],
            tried := t.tried - {TriedSlot(p, t.infos[id].addr)},
       nTried := t.nTried - 1, nNew := t.nNew + 1, counts := Bump(t.counts, p.network(t.infos[id].addr), 1, -1))
    ensures u == Demoted(p, t, id)
  {
  }

  lemma {:induction false} PromotedIs(p: Params, t: Tables, u: Tables, id: nat)
    requires id in t.infos && u
            == t.(infos := t.infos[id := t.infos[id].(inTried := true)],
            tried := t.tried[TriedSlot(p, t.infos[id].addr) := id],
       nTried := t.nTried + 1, nNew := t.nNew - 1, counts := Bump(t.counts, p.network(t.infos[id].addr), -1, 1))
    ensures u == Promoted(p, t, id)
  {
  }

  lemma {:induction false} ReferencedIs(t: Tables, u: Tables, s: Slot, id: nat)
    requires id in t.infos
    requires u == t.(infos := t.infos[id := t.infos[id].(refCount := t.infos[id].refCount + 1)],
            newTable := t.newTable[s := id])
    ensures u == Referenced(t, s, id)
  {
  }

  lemma {:induction false} RandomPart(p: Params, t: Tables, exempt: set<nat>)
    requires Consistent(p, t, exempt)
    ensures RandomOk(t.infos, t.random)
  {
    hide RandomOk;
  }

  /** Swapping an entry with the last one and dropping it. */
  lemma {:induction false} SwappedOut(t: Tables, id: nat)
    requires id in t.infos && t.infos[id].randomPos < |t.random| && t.random[t.infos[id].randomPos] == id
    requires t.random[|t.random| - 1] in t.infos
    ensures var pos, n := t.infos[id].randomPos, |t.random| - 1;
            var last := t.random[n];
            && t.random[pos := last][n := id][..n] == Unlisted(t.random, pos)
            && t.infos[id := t.infos[id].(randomPos := n)][last := t.infos[last].(randomPos := pos)] - {id}
                == Moved(t, pos) - {id}
  {
  }

  lemma {:induction false} EntryAt(infos: Infos, random: seq<nat>, id: nat)
    requires RandomOk(infos, random) && id in infos
    ensures infos[id].randomPos < |random| && random[infos[id].randomPos] == id
  {
  }

  lemma {:induction false} EmptyConsistent(p: Params, t: Tables)
    requires t == Tables(0, map[], map[], [], map[], map[], 0, 0, map[])
    ensures Consistent(p, t, {})
  {
    assert Ids(p, t.infos, false, None) == {} && Ids(p, t.infos, true, None) == {};
  }
}
