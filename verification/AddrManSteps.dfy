/** The elementary changes to the address manager's tables, and that each keeps them consistent. */
module AddrManSteps {
  import opened Options
  import opened AddrManTables

  // ---- Counters ----

  function CountOf(counts: map<Network, NewTriedCount>, net: Network): NewTriedCount {
    if net in counts then counts[net] else NewTriedCount(0, 0)
  }

  function Bump(counts: map<Network, NewTriedCount>, net: Network, byNew: int, byTried: int): map<Network,
      NewTriedCount> {
    var c := CountOf(counts, net);
    counts[net := NewTriedCount(c.nNew + byNew, c.nTried + byTried)]
  }

  function One(b: bool): int {
    if b then 1 else 0
  }

  /** No entry of a network that has no counters. */
  lemma {:induction false} CountsTotal(p: Params, t: Tables, net: Network)
    requires CountsOk(p, t.infos, t.nNew, t.nTried, t.counts)
    ensures CountOf(t.counts, net).nNew == |Ids(p, t.infos, false, Some(net))|
    ensures CountOf(t.counts, net).nTried == |Ids(p, t.infos, true, Some(net))|
  {
    if net !in t.counts {
      assert Ids(p, t.infos, false, Some(net)) == {} && Ids(p, t.infos, true, Some(net)) == {};
    }
  }

  /** Counters follow a change of one entry, or its creation. */
  lemma {:induction false} CountsUpdate(p: Params, t: Tables, id: nat, x: AddrInfo, byNew: int, byTried: int)
    requires CountsOk(p, t.infos, t.nNew, t.nTried, t.counts) && (id in t.infos ==> t.infos[id].addr == x.addr)
    requires byNew == One(!x.inTried) - One(id in t.infos && !t.infos[id].inTried)
    requires byTried == One(x.inTried) - One(id in t.infos && t.infos[id].inTried)
    ensures CountsOk(p, t.infos[id := x], t.nNew + byNew, t.nTried + byTried,
            Bump(t.counts, p.network(x.addr), byNew, byTried))
  {
    hide Ids;
    var infos', net := t.infos[id := x], p.network(x.addr);
    var counts' := Bump(t.counts, net, byNew, byTried);
    IdsUpdate(p, t.infos, id, x, false, None);
    IdsUpdate(p, t.infos, id, x, true, None);
    CountsTotal(p, t, net);
    forall n | n in counts' ensures counts'[n].nNew == |Ids(p, infos', false, Some(n))|
        && counts'[n].nTried == |Ids(p, infos', true, Some(n))| {
      IdsUpdate(p, t.infos, id, x, false, Some(n));
      IdsUpdate(p, t.infos, id, x, true, Some(n));
    }
  }

  lemma {:induction false} CountsRemove(p: Params, t: Tables, id: nat)
    requires CountsOk(p, t.infos, t.nNew, t.nTried, t.counts) && id in t.infos && !t.infos[id].inTried
    ensures CountsOk(p, t.infos - {id}, t.nNew - 1, t.nTried, Bump(t.counts, p.network(t.infos[id].addr), -1, 0))
  {
    hide Ids;
    var infos', net := t.infos - {id}, p.network(t.infos[id].addr);
    var counts' := Bump(t.counts, net, -1, 0);
    IdsRemove(p, t.infos, id, false, None);
    IdsRemove(p, t.infos, id, true, None);
    forall n | n in counts' ensures counts'[n].nNew == |Ids(p, infos', false, Some(n))|
        && counts'[n].nTried == |Ids(p, infos', true, Some(n))| {
      IdsRemove(p, t.infos, id, false, Some(n));
      IdsRemove(p, t.infos, id, true, Some(n));
    }
  }

  // ---- Parts that a change of one entry leaves alone ----

  lemma {:induction false} SameIndex(t: Tables, id: nat, x: AddrInfo)
    requires IndexOk(t.infos, t.index, t.idCount) && id in t.infos && x.addr == t.infos[id].addr
    ensures IndexOk(t.infos[id := x], t.index, t.idCount)
  {
    assert t.infos[id].addr == x.addr;
  }

  lemma {:induction false} SameRandom(t: Tables, id: nat, x: AddrInfo)
    requires RandomOk(t.infos, t.random) && id in t.infos && x.randomPos == t.infos[id].randomPos
    ensures RandomOk(t.infos[id := x], t.random)
  {
    assert t.infos[id].randomPos == x.randomPos;
  }

  lemma {:induction false} SameTried(p: Params, t: Tables, id: nat, x: AddrInfo)
    requires TriedOk(p, t.infos, t.tried) && id in t.infos && x.addr == t.infos[id].addr
    requires x.inTried == t.infos[id].inTried
    ensures TriedOk(p, t.infos[id := x], t.tried)
  {
    hide TriedSlot;
    assert t.infos[id].addr == x.addr;
  }

  lemma {:induction false} SameNew(p: Params, t: Tables, id: nat, x: AddrInfo, exempt: set<nat>)
    requires NewOk(p, t.infos, t.newTable, exempt) && id in t.infos
    requires x.addr == t.infos[id].addr && x.inTried == t.infos[id].inTried && x.refCount == t.infos[id].refCount
    ensures NewOk(p, t.infos[id := x], t.newTable, exempt)
  {
    hide NewSlot, Refs;
    assert t.infos[id].addr == x.addr;
  }

  lemma {:induction false} SameCounts(p: Params, t: Tables, id: nat, x: AddrInfo)
    requires CountsOk(p, t.infos, t.nNew, t.nTried, t.counts) && id in t.infos && x.addr == t.infos[id].addr
    requires x.inTried == t.infos[id].inTried
    ensures CountsOk(p, t.infos[id := x], t.nNew, t.nTried, t.counts)
  {
    CountsUpdate(p, t, id, x, 0, 0);
    assert p.network(t.infos[id].addr) in t.counts;
    hide CountsOk;
    assert Bump(t.counts, p.network(x.addr), 0, 0) == t.counts;
  }

  lemma {:induction false} SameRest(p: Params, t: Tables, id: nat, x: AddrInfo)
    requires TimesOk(t.infos) && AddressesOk(p, t.infos) && id in t.infos && x.addr == t.infos[id].addr
    requires x.lastTry >= 0 && x.lastSuccess >= 0 && (x.inTried ==> x.lastSuccess != 0)
    ensures TimesOk(t.infos[id := x]) && AddressesOk(p, t.infos[id := x])
  {
    assert p.routable(t.infos[id].addr);
  }

  // ---- Updating an entry's statistics ----

  /** Same address, tables and positions; only times, attempts and services differ. */
  predicate SameEntry(x: AddrInfo, y: AddrInfo) {
    x.addr == y.addr && x.source == y.source && x.refCount == y.refCount && x.inTried == y.inTried
        && x.randomPos == y.randomPos
  }

  predicate GoodTimes(x: AddrInfo) {
    x.lastTry >= 0 && x.lastSuccess >= 0 && (x.inTried ==> x.lastSuccess != 0)
  }

  function Touched(t: Tables, id: nat, x: AddrInfo): Tables {
    t.(infos := t.infos[id := x])
  }

  lemma {:induction false} TouchKeeps(p: Params, t: Tables, id: nat, x: AddrInfo, exempt: set<nat>)
    requires Consistent(p, t, exempt) && id in t.infos && SameEntry(x, t.infos[id]) && GoodTimes(x)
    ensures Consistent(p, Touched(t, id, x), exempt)
  {
    hide IndexOk, RandomOk, NewOk, TriedOk, CountsOk, TimesOk, AddressesOk;
    SameIndex(t, id, x);
    SameRandom(t, id, x);
    SameTried(p, t, id, x);
    SameNew(p, t, id, x, exempt);
    SameCounts(p, t, id, x);
    SameRest(p, t, id, x);
  }

  // ---- Creating and deleting ----

  function Created(p: Params, t: Tables, x: AddrInfo): Tables {
    var id := t.idCount;
    Tables(t.idCount + 1, t.infos[id := x.(randomPos := |t.random|)], t.index[x.addr := id], t.random + [id], t.tried,
        t.newTable,
           t.nTried, t.nNew + 1, Bump(t.counts, p.network(x.addr), 1, 0))
  }

  lemma {:induction false} CreateIndex(t: Tables, x: AddrInfo)
    requires IndexOk(t.infos, t.index, t.idCount) && x.addr !in t.index
    ensures t.idCount !in t.infos && IndexOk(t.infos[t.idCount := x], t.index[x.addr := t.idCount], t.idCount + 1)
  {
  }

  lemma {:induction false} CreateRandom(t: Tables, id: nat, x: AddrInfo)
    requires RandomOk(t.infos, t.random) && id !in t.infos && x.randomPos == |t.random|
    ensures RandomOk(t.infos[id := x], t.random + [id])
  {
  }

  lemma {:induction false} CreateNewTried(p: Params, t: Tables, id: nat, x: AddrInfo, exempt: set<nat>)
    requires NewOk(p, t.infos, t.newTable, exempt) && TriedOk(p, t.infos, t.tried) && id !in t.infos
    requires x.refCount == 0 && !x.inTried
    ensures NewOk(p, t.infos[id := x], t.newTable, exempt + {id}) && TriedOk(p, t.infos[id := x], t.tried)
  {
    hide NewSlot, TriedSlot;
    assert Refs(t.newTable, id) == {};
  }

  lemma {:induction false} CreateGood(p: Params, t: Tables, id: nat, y: AddrInfo)
    requires TimesOk(t.infos) && AddressesOk(p, t.infos) && GoodTimes(y) && p.routable(y.addr)
    ensures TimesOk(t.infos[id := y]) && AddressesOk(p, t.infos[id := y])
  {
  }

  lemma {:induction false} CreateKeeps(p: Params, t: Tables, x: AddrInfo, exempt: set<nat>)
    requires Consistent(p, t, exempt) && x.addr !in t.index && x.refCount == 0 && !x.inTried && GoodTimes(x)
    requires p.routable(x.addr)
    ensures Consistent(p, Created(p, t, x), exempt + {t.idCount}) && t.idCount !in t.infos
  {
    var id, y := t.idCount, x.(randomPos := |t.random|);
    hide IndexOk, RandomOk, NewOk, TriedOk, CountsOk, TimesOk, AddressesOk, Bump;
    CreateGood(p, t, id, y);
    CreateIndex(t, y);
    CreateRandom(t, id, y);
    CreateNewTried(p, t, id, y, exempt);
    CountsUpdate(p, t, id, y, 1, 0);
  }

  /** vRandom without position `pos`, which the last element takes over. */
  function Unlisted(random: seq<nat>, pos: nat): seq<nat>
    requires pos < |random|
  {
    random[pos := random[|random| - 1]][..|random| - 1]
  }

  /** The entries after the element at `pos` and the last one swapped places in vRandom. */
  function Moved(t: Tables, pos: nat): Infos
    requires pos < |t.random| && t.random[|t.random| - 1] in t.infos
  {
    var last := t.random[|t.random| - 1];
    t.infos[last := t.infos[last].(randomPos := pos)]
  }

  function Deleted(p: Params, t: Tables, id: nat): Tables
    requires id in t.infos && t.infos[id].randomPos < |t.random| && t.random[|t.random| - 1] in t.infos
  {
    var x := t.infos[id];
    t.(infos := Moved(t, x.randomPos) - {id}, index := t.index - {x.addr}, random := Unlisted(t.random, x.randomPos),
       nNew := t.nNew - 1, counts := Bump(t.counts, p.network(x.addr), -1, 0))
  }

  lemma {:induction false} DeleteIndex(t: Tables, id: nat)
    requires IndexOk(t.infos, t.index, t.idCount) && id in t.infos
    ensures IndexOk(t.infos - {id}, t.index - {t.infos[id].addr}, t.idCount)
  {
    assert t.index[t.infos[id].addr] == id;
  }

  lemma {:induction false} DeleteRandom(t: Tables, id: nat)
    requires RandomOk(t.infos, t.random) && id in t.infos
    ensures t.infos[id].randomPos < |t.random| && t.random[|t.random| - 1] in t.infos
    ensures RandomOk(Moved(t, t.infos[id].randomPos) - {id}, Unlisted(t.random, t.infos[id].randomPos))
  {
    var pos, n := t.infos[id].randomPos, |t.random|;
    assert t.random[pos] == id;
    var last := t.random[n - 1];
    assert t.infos[last].randomPos == n - 1;
  }

  lemma {:induction false} DeleteNewTried(p: Params, t: Tables, id: nat, exempt: set<nat>)
    requires NewOk(p, t.infos, t.newTable, exempt) && TriedOk(p, t.infos, t.tried) && id in t.infos
    requires t.infos[id].refCount == 0 && !t.infos[id].inTried
    ensures NewOk(p, t.infos - {id}, t.newTable, exempt - {id}) && TriedOk(p, t.infos - {id}, t.tried)
  {
    hide NewSlot, TriedSlot;
    forall s | s in t.newTable ensures t.newTable[s] != id {
      assert t.newTable[s] == id ==> s in Refs(t.newTable, id);
    }
  }

  /** The parts of consistency other than vRandom's do not depend on positions in it. */
  lemma {:induction false} MovedKeeps(p: Params, t: Tables, last: nat, pos: nat, exempt: set<nat>)
    requires Consistent(p, t, exempt) && last in t.infos
    ensures var infos' := t.infos[last := t.infos[last].(randomPos := pos)];
            && IndexOk(infos', t.index, t.idCount) && NewOk(p, infos', t.newTable, exempt)
                && TriedOk(p, infos', t.tried)
            && CountsOk(p, infos', t.nNew, t.nTried, t.counts) && TimesOk(infos') && AddressesOk(p, infos')
  {
    var y := t.infos[last].(randomPos := pos);
    EntryTimes(t.infos, last);
    hide IndexOk, RandomOk, NewOk, TriedOk, CountsOk, TimesOk, AddressesOk;
    SameIndex(t, last, y);
    SameNew(p, t, last, y, exempt);
    SameTried(p, t, last, y);
    SameCounts(p, t, last, y);
    SameRest(p, t, last, y);
  }

  lemma {:induction false} EntryTimes(infos: Infos, id: nat)
    requires TimesOk(infos) && id in infos
    ensures GoodTimes(infos[id])
  {
  }

  /** Delete an entry that no table refers to. */
  lemma {:induction false} DeleteKeeps(p: Params, t: Tables, id: nat, exempt: set<nat>)
    requires Consistent(p, t, exempt) && id in t.infos && t.infos[id].refCount == 0 && !t.infos[id].inTried
    ensures t.infos[id].randomPos < |t.random| && t.random[|t.random| - 1] in t.infos
    ensures Consistent(p, Deleted(p, t, id), exempt - {id})
  {
    hide IndexOk, RandomOk, NewOk, TriedOk, CountsOk, TimesOk, AddressesOk, Bump;
    DeleteRandom(t, id);
    var pos, last := t.infos[id].randomPos, t.random[|t.random| - 1];
    MovedKeeps(p, t, last, pos, exempt);
    var u := t.(infos := Moved(t, pos));
    DeleteIndex(u, id);
    DeleteNewTried(p, u, id, exempt);
    CountsRemove(p, u, id);
    RestRemoved(p, u.infos, id);
  }

  lemma {:induction false} RestRemoved(p: Params, infos: Infos, id: nat)
    requires TimesOk(infos) && AddressesOk(p, infos)
    ensures TimesOk(infos - {id}) && AddressesOk(p, infos - {id})
  {
  }

  // ---- References from the new table ----

  function Referenced(t: Tables, s: Slot, id: nat): Tables
    requires id in t.infos
  {
    t.(infos := t.infos[id := t.infos[id].(refCount := t.infos[id].refCount + 1)], newTable := t.newTable[s := id])
  }

  lemma {:induction false} ReferenceNew(p: Params, t: Tables, s: Slot, id: nat, exempt: set<nat>)
    requires NewOk(p, t.infos, t.newTable, exempt) && id in t.infos && !t.infos[id].inTried && s !in t.newTable
    requires s.bucket < ADDRMAN_NEW_BUCKET_COUNT && s == NewSlot(p, t.infos[id].addr, s.bucket)
    requires t.infos[id].refCount < ADDRMAN_NEW_BUCKETS_PER_ADDRESS
    ensures NewOk(p, Referenced(t, s, id).infos, Referenced(t, s, id).newTable, exempt - {id})
  {
    hide NewSlot, Refs;
    forall j | j in t.infos ensures |Refs(t.newTable[s := id], j)| == |Refs(t.newTable, j)| + if j == id then 1 else 0 {
      RefsAdd(t.newTable, s, id, j);
    }
  }

  lemma {:induction false} ReferenceKeeps(p: Params, t: Tables, s: Slot, id: nat, exempt: set<nat>)
    requires Consistent(p, t, exempt) && id in t.infos && !t.infos[id].inTried && s !in t.newTable
    requires s.bucket < ADDRMAN_NEW_BUCKET_COUNT && s == NewSlot(p, t.infos[id].addr, s.bucket)
    requires t.infos[id].refCount < ADDRMAN_NEW_BUCKETS_PER_ADDRESS
    ensures Consistent(p, Referenced(t, s, id), exempt - {id})
  {
    var x := t.infos[id].(refCount := t.infos[id].refCount + 1);
    EntryTimes(t.infos, id);
    hide IndexOk, RandomOk, NewOk, TriedOk, CountsOk, TimesOk, AddressesOk, NewSlot;
    ReferenceNew(p, t, s, id, exempt);
    SameIndex(t, id, x);
    SameRandom(t, id, x);
    SameTried(p, t, id, x);
    SameCounts(p, t, id, x);
    SameRest(p, t, id, x);
  }

  function Unreferenced(t: Tables, s: Slot): Tables
    requires s in t.newTable && t.newTable[s] in t.infos
  {
    var id := t.newTable[s];
    t.(infos := t.infos[id := t.infos[id].(refCount := t.infos[id].refCount - 1)], newTable := t.newTable - {s})
  }

  lemma {:induction false} UnreferenceNew(p: Params, t: Tables, s: Slot, exempt: set<nat>)
    requires NewOk(p, t.infos, t.newTable, exempt) && s in t.newTable
    ensures t.newTable[s] in t.infos && !t.infos[t.newTable[s]].inTried && t.infos[t.newTable[s]].refCount > 0
    ensures NewOk(p, Unreferenced(t, s).infos, Unreferenced(t, s).newTable, exempt + {t.newTable[s]})
  {
    hide NewSlot;
    var id := t.newTable[s];
    assert s in Refs(t.newTable, id);
    forall j | j in t.infos ensures |Refs(t.newTable - {s}, j)| == |Refs(t.newTable, j)| - if j == id then 1 else 0 {
      RefsRemove(t.newTable, s, j);
    }
  }

  lemma {:induction false} UnreferenceKeeps(p: Params, t: Tables, s: Slot, exempt: set<nat>)
    requires Consistent(p, t, exempt) && s in t.newTable
    ensures t.newTable[s] in t.infos && !t.infos[t.newTable[s]].inTried && t.infos[t.newTable[s]].refCount > 0
    ensures Consistent(p, Unreferenced(t, s), exempt + {t.newTable[s]})
  {
    var id := t.newTable[s];
    UnreferenceNew(p, t, s, exempt);
    var x := t.infos[id].(refCount := t.infos[id].refCount - 1);
    EntryTimes(t.infos, id);
    hide IndexOk, RandomOk, NewOk, TriedOk, CountsOk, TimesOk, AddressesOk, NewSlot;
    SameIndex(t, id, x);
    SameRandom(t, id, x);
    SameTried(p, t, id, x);
    SameCounts(p, t, id, x);
    SameRest(p, t, id, x);
  }

  // ---- Moving between the tables ----

  /** Take an entry out of the tried table, not yet into the new one. */
  function Demoted(p: Params, t: Tables, id: nat): Tables
    requires id in t.infos
  {
    t.(infos := t.infos[id := t.infos[id].(inTried := false)], tried := t.tried - {TriedSlot(p, t.infos[id].addr)},
       nTried := t.nTried - 1, nNew := t.nNew + 1, counts := Bump(t.counts, p.network(t.infos[id].addr), 1, -1))
  }

  lemma {:induction false} DemoteTables(p: Params, t: Tables, id: nat, exempt: set<nat>)
    requires NewOk(p, t.infos, t.newTable, exempt) && TriedOk(p, t.infos, t.tried) && id in t.infos
    requires t.infos[id].inTried
    ensures NewOk(p, Demoted(p, t, id).infos, t.newTable, exempt + {id})
    ensures TriedOk(p, Demoted(p, t, id).infos, Demoted(p, t, id).tried)
  {
    hide NewSlot, TriedSlot, Refs, Bump;
    assert t.tried[TriedSlot(p, t.infos[id].addr)] == id;
    var u := Demoted(p, t, id);
    forall j | j in u.infos && u.infos[j].inTried ensures TriedSlot(p, u.infos[j].addr) in u.tried
        && u.tried[TriedSlot(p, u.infos[j].addr)] == j {
      assert t.tried[TriedSlot(p, t.infos[j].addr)] == j;
    }
  }

  lemma {:induction false} DemoteKeeps(p: Params, t: Tables, id: nat, exempt: set<nat>)
    requires Consistent(p, t, exempt) && id in t.infos && t.infos[id].inTried
    ensures Consistent(p, Demoted(p, t, id), exempt + {id}) && Demoted(p, t, id).infos[id].refCount == 0
  {
    var x := t.infos[id].(inTried := false);
    EntryTimes(t.infos, id);
    TriedUnreferenced(p, t, id, exempt);
    hide IndexOk, RandomOk, NewOk, TriedOk, CountsOk, TimesOk, AddressesOk, Bump, TriedSlot;
    SameIndex(t, id, x);
    SameRandom(t, id, x);
    DemoteTables(p, t, id, exempt);
    CountsUpdate(p, t, id, x, 1, -1);
    SameRest(p, t, id, x);
  }

  lemma {:induction false} TriedUnreferenced(p: Params, t: Tables, id: nat, exempt: set<nat>)
    requires NewOk(p, t.infos, t.newTable, exempt) && id in t.infos && t.infos[id].inTried
    ensures t.infos[id].refCount == 0
  {
  }

  /** Put an entry that no new bucket holds into its free tried slot. */
  function Promoted(p: Params, t: Tables, id: nat): Tables
    requires id in t.infos
  {
    t.(infos := t.infos[id := t.infos[id].(inTried := true)], tried := t.tried[TriedSlot(p, t.infos[id].addr) := id],
       nTried := t.nTried + 1, nNew := t.nNew - 1, counts := Bump(t.counts, p.network(t.infos[id].addr), -1, 1))
  }

  lemma {:induction false} PromoteTables(p: Params, t: Tables, id: nat, exempt: set<nat>)
    requires NewOk(p, t.infos, t.newTable, exempt) && TriedOk(p, t.infos, t.tried) && id in t.infos
    requires !t.infos[id].inTried && t.infos[id].refCount == 0
    requires TriedSlot(p, t.infos[id].addr) !in t.tried
    ensures NewOk(p, Promoted(p, t, id).infos, t.newTable, exempt - {id})
    ensures TriedOk(p, Promoted(p, t, id).infos, Promoted(p, t, id).tried)
  {
    hide NewSlot, TriedSlot, Refs, Bump;
    var u := Promoted(p, t, id);
    forall j | j in u.infos && u.infos[j].inTried ensures TriedSlot(p, u.infos[j].addr) in u.tried
        && u.tried[TriedSlot(p, u.infos[j].addr)] == j {
      if j != id { assert t.tried[TriedSlot(p, t.infos[j].addr)] == j; }
    }
  }

  lemma {:induction false} PromoteKeeps(p: Params, t: Tables, id: nat, exempt: set<nat>)
    requires Consistent(p, t, exempt) && id in t.infos && !t.infos[id].inTried && t.infos[id].refCount == 0
    requires t.infos[id].lastSuccess != 0
    requires TriedSlot(p, t.infos[id].addr) !in t.tried
    ensures Consistent(p, Promoted(p, t, id), exempt - {id})
  {
    var x := t.infos[id].(inTried := true);
    EntryTimes(t.infos, id);
    hide IndexOk, RandomOk, NewOk, TriedOk, CountsOk, TimesOk, AddressesOk, Bump, TriedSlot;
    SameIndex(t, id, x);
    SameRandom(t, id, x);
    PromoteTables(p, t, id, exempt);
    CountsUpdate(p, t, id, x, -1, 1);
    SameRest(p, t, id, x);
  }
}
