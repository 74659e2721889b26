/** The tables of the address manager and what makes them consistent (src/addrman_impl.h;
    src/addrman.cpp, AddrManImpl::CheckAddrman). */
module AddrManTables {
  import opened Options

  /** An address with its port; a network; the group key of a source. */
  type Service = nat
  type Network = nat
  type Source = nat

  const ADDRMAN_TRIED_BUCKET_COUNT := 256
  const ADDRMAN_NEW_BUCKET_COUNT := 1024
  const ADDRMAN_BUCKET_SIZE := 64
  const ADDRMAN_NEW_BUCKETS_PER_ADDRESS := 8
  const ADDRMAN_SET_TRIED_COLLISION_SIZE := 10

  /** The keyed hashes, and what is known of addresses. */
  datatype Params = Params(triedHash: Service -> nat, newHash: (Service, Source) -> nat,
      positionHash: (Service, bool, nat) -> nat,
                           network: Service -> Network, routable: Service -> bool, isValid: Service -> bool)

  datatype AddrInfo = AddrInfo(addr: Service, services: set<nat>, time: int, source: Source, lastTry: int,
      lastCountAttempt: int,
                               lastSuccess: int, attempts: int, refCount: int, inTried: bool, randomPos: nat)

  datatype Slot = Slot(bucket: nat, pos: nat)

  datatype NewTriedCount = NewTriedCount(nNew: int, nTried: int)

  function GetTriedBucket(p: Params, a: Service): nat {
    p.triedHash(a) % ADDRMAN_TRIED_BUCKET_COUNT
  }

  function GetNewBucket(p: Params, a: Service, src: Source): nat {
    p.newHash(a, src) % ADDRMAN_NEW_BUCKET_COUNT
  }

  function GetBucketPosition(p: Params, a: Service, isNew: bool, bucket: nat): nat {
    p.positionHash(a, isNew, bucket) % ADDRMAN_BUCKET_SIZE
  }

  /** Where an address belongs in the tried table, and in a bucket of the new table. */
  function TriedSlot(p: Params, a: Service): Slot {
    var b := GetTriedBucket(p, a);
    Slot(b, GetBucketPosition(p, a, false, b))
  }

  function NewSlot(p: Params, a: Service, bucket: nat): Slot {
    Slot(bucket, GetBucketPosition(p, a, true, bucket))
  }

  type Infos = map<nat, AddrInfo>
  type Table = map<Slot, nat>

  /** All tables. A slot that holds -1 is absent from its map. */
  datatype Tables = Tables(idCount: nat, infos: Infos, index: map<Service, nat>, random: seq<nat>, tried: Table,
      newTable: Table,
                           nTried: int, nNew: int, counts: map<Network, NewTriedCount>)

  // ---- Consistency, part by part ----

  /** mapInfo and mapAddr are inverse to each other (-5). */
  ghost predicate IndexOk(infos: Infos, index: map<Service, nat>, idCount: nat) {
    && (forall id {:trigger infos[id]} :: id in infos ==>
        id < idCount && infos[id].addr in index && index[infos[id].addr] == id)
    && (forall a {:trigger index[a]} :: a in index ==> index[a] in infos && infos[index[a]].addr == a)
  }

  /** vRandom lists all ids, each where its entry says (-7, -14). */
  ghost predicate RandomOk(infos: Infos, random: seq<nat>) {
    && (forall id {:trigger infos[id]} :: id in infos ==>
        infos[id].randomPos < |random| && random[infos[id].randomPos] == id)
    && (forall i {:trigger random[i]} :: 0 <= i < |random| ==> random[i] in infos && infos[random[i]].randomPos == i)
  }

  ghost function Refs(table: Table, id: nat): set<Slot> {
    set s | s in table && table[s] == id
  }

  /** Reference counts are the occurrences in the new table, where each entry sits at its hashed
      position (-2, -3, -4, -12, -15, -19). Those in `exempt` may have no reference
      yet, or no longer. */
  ghost predicate NewOk(p: Params, infos: Infos, table: Table, exempt: set<nat>) {
    && (forall s {:trigger table[s]} :: s in table ==>
          table[s] in infos && s.bucket < ADDRMAN_NEW_BUCKET_COUNT && s == NewSlot(p, infos[table[s]].addr, s.bucket))
    && (forall id {:trigger infos[id]} :: id in infos ==>
          infos[id].refCount == |Refs(table, id)| <= ADDRMAN_NEW_BUCKETS_PER_ADDRESS
              && (infos[id].inTried ==> infos[id].refCount == 0)
          && (!infos[id].inTried && id !in exempt ==> infos[id].refCount > 0))
  }

  /** Tried entries sit exactly once, at their hashed slot (-11, -13, -17, -18). */
  ghost predicate TriedOk(p: Params, infos: Infos, table: Table) {
    && (forall s {:trigger table[s]} :: s in table ==>
        table[s] in infos && infos[table[s]].inTried && s == TriedSlot(p, infos[table[s]].addr))
    && (forall id {:trigger infos[id]} :: id in infos && infos[id].inTried ==>
          TriedSlot(p, infos[id].addr) in table && table[TriedSlot(p, infos[id].addr)] == id)
  }

  predicate Fits(p: Params, x: AddrInfo, inTried: bool, net: Option<Network>) {
    x.inTried == inTried && (net.None? || p.network(x.addr) == net.value)
  }

  ghost function Ids(p: Params, infos: Infos, inTried: bool, net: Option<Network>): set<nat> {
    set id | id in infos && Fits(p, infos[id], inTried, net)
  }

  /** Totals, and totals per network (-9, -10, -20, -21). */
  ghost predicate CountsOk(p: Params, infos: Infos, nNew: int, nTried: int, counts: map<Network, NewTriedCount>) {
    && nNew == |Ids(p, infos, false, None)| && nTried == |Ids(p, infos, true, None)|
    && (forall n {:trigger counts[n]} :: n in counts ==>
        counts[n].nNew == |Ids(p, infos, false, Some(n))| && counts[n].nTried == |Ids(p, infos, true, Some(n))|)
    && (forall id {:trigger infos[id]} :: id in infos ==> p.network(infos[id].addr) in counts)
  }

  /** Times (-1, -6, -8). */
  ghost predicate TimesOk(infos: Infos) {
    forall id {:trigger infos[id]} :: id in infos ==>
      infos[id].lastTry >= 0 && infos[id].lastSuccess >= 0 && (infos[id].inTried ==> infos[id].lastSuccess != 0)
  }

  /** Only routable addresses get in. */
  ghost predicate AddressesOk(p: Params, infos: Infos) {
    forall id {:trigger infos[id]} :: id in infos ==> p.routable(infos[id].addr)
  }

  ghost predicate Consistent(p: Params, t: Tables, exempt: set<nat>) {
    && IndexOk(t.infos, t.index, t.idCount) && RandomOk(t.infos, t.random) && NewOk(p, t.infos, t.newTable, exempt)
    && TriedOk(p, t.infos, t.tried) && CountsOk(p, t.infos, t.nNew, t.nTried, t.counts) && TimesOk(t.infos)
        && AddressesOk(p, t.infos)
  }

  // ---- Counting ----

  lemma {:induction false} IdsUpdate(p: Params, infos: Infos, id: nat, x: AddrInfo, inTried: bool, net: Option<Network>)
    ensures |Ids(p, infos[id := x], inTried, net)| ==
              |Ids(p, infos, inTried, net)| - (if id in infos && Fits(p, infos[id], inTried, net) then 1 else 0)
                  + if Fits(p, x, inTried, net) then 1 else 0
  {
    hide Fits;
    var before := Ids(p, infos, inTried, net);
    var after := Ids(p, infos[id := x], inTried, net);
    IdsOthers(p, infos, id, x, inTried, net);
    assert id in before <==> id in infos && Fits(p, infos[id], inTried, net);
    assert id in after <==> Fits(p, x, inTried, net);
    hide Ids;
    WithoutOne(before, id);
    WithoutOne(after, id);
  }

  lemma {:induction false} IdsOthers(p: Params, infos: Infos, id: nat, x: AddrInfo, inTried: bool, net: Option<Network>)
    ensures Ids(p, infos[id := x], inTried, net) - {id} == Ids(p, infos, inTried, net) - {id}
  {
    hide Fits;
  }

  lemma {:induction false} WithoutOne(s: set<nat>, x: nat)
    ensures |s| == |s - {x}| + if x in s then 1 else 0
  {
    if x in s {
      assert s == s - {x} + {x};
    } else {
      assert s == s - {x};
    }
  }

  lemma {:induction false} IdsRemove(p: Params, infos: Infos, id: nat, inTried: bool, net: Option<Network>)
    requires id in infos
    ensures |Ids(p, infos - {id}, inTried, net)| == |Ids(p, infos, inTried, net)|
              - if Fits(p, infos[id], inTried, net) then 1 else 0
  {
    hide Fits;
    assert Ids(p, infos - {id}, inTried, net) == Ids(p, infos, inTried, net) - {id};
  }

  lemma {:induction false} RefsAdd(table: Table, s: Slot, id: nat, other: nat)
    requires s !in table
    ensures |Refs(table[s := id], other)| == |Refs(table, other)| + if other == id then 1 else 0
  {
    if other == id {
      assert Refs(table[s := id], other) == Refs(table, other) + {s};
    } else {
      assert Refs(table[s := id], other) == Refs(table, other);
    }
  }

  lemma {:induction false} RefsRemove(table: Table, s: Slot, other: nat)
    requires s in table
    ensures |Refs(table - {s}, other)| == |Refs(table, other)| - if table[s] == other then 1 else 0
  {
    assert Refs(table - {s}, other) == Refs(table, other) - {s};
  }
}
