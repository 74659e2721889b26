/** The address manager's own consistency check (src/addrman.cpp, AddrManImpl::CheckAddrman): it
    passes exactly on the tables described here, which include all consistent ones. */
module AddrManChecks {
  import opened Options
  import opened AddrManTables
  import opened AddrManSteps
  import Sums

  // ---- What the check looks for ----

  /** One entry of mapInfo (-1 to -6, -8, -14). */
  predicate EntryChecked(t: Tables, id: nat, x: AddrInfo) {
    && (if x.inTried then x.lastSuccess != 0 && x.refCount == 0 else 0 < x.refCount <= ADDRMAN_NEW_BUCKETS_PER_ADDRESS)
    && x.addr in t.index && t.index[x.addr] == id && x.randomPos < |t.random| && t.random[x.randomPos] == id
        && x.lastTry >= 0 && x.lastSuccess >= 0
  }

  ghost predicate EntriesChecked(t: Tables, infos: Infos) {
    forall id {:trigger infos[id]} :: id in infos ==> EntryChecked(t, id, infos[id])
  }

  /** The per-network totals of `infos`. */
  ghost predicate LocalCounts(p: Params, infos: Infos, counts: map<Network, NewTriedCount>) {
    && (forall n: Network {:trigger CountOf(counts, n)} ::
        CountOf(counts, n) == NewTriedCount(|Ids(p, infos, false, Some(n))|, |Ids(p, infos, true, Some(n))|))
    && counts.Keys == Networks(p, infos)
  }

  ghost function Networks(p: Params, infos: Infos): set<Network> {
    set id | id in infos :: p.network(infos[id].addr)
  }

  ghost predicate CountersChecked(p: Params, t: Tables) {
    && |t.counts| >= |Networks(p, t.infos)|
    && forall n {:trigger t.counts[n]} :: n in t.counts ==>
        t.counts[n] == NewTriedCount(|Ids(p, t.infos, false, Some(n))|, |Ids(p, t.infos, true, Some(n))|)
  }

  ghost predicate Checked(p: Params, t: Tables) {
    && |t.random| == t.nTried + t.nNew && EntriesChecked(t, t.infos)
    && |Ids(p, t.infos, true, None)| == t.nTried && |Ids(p, t.infos, false, None)| == t.nNew
    && TriedOk(p, t.infos, t.tried) && NewOk(p, t.infos, t.newTable, {}) && CountersChecked(p, t)
  }

  // ---- Slots in the order they are visited ----

  function Index(s: Slot): nat {
    s.bucket * ADDRMAN_BUCKET_SIZE + s.pos
  }

  function SlotAt(i: nat): Slot {
    Slot(i / ADDRMAN_BUCKET_SIZE, i % ADDRMAN_BUCKET_SIZE)
  }

  /** The table fits its array. */
  ghost predicate InArray(table: Table, buckets: nat) {
    forall s {:trigger table[s]} :: s in table ==> s.bucket < buckets && s.pos < ADDRMAN_BUCKET_SIZE
  }

  lemma {:induction false} SlotOrder(s: Slot, i: nat)
    requires s.pos < ADDRMAN_BUCKET_SIZE
    ensures Index(s) == i <==> s == SlotAt(i)
  {
  }

  lemma {:induction false} AllVisited(table: Table, buckets: nat, s: Slot)
    requires InArray(table, buckets) && s in table
    ensures Index(s) < buckets * ADDRMAN_BUCKET_SIZE
  {
  }

  // ---- Entries ----

  ghost function RefCounts(infos: Infos): map<nat, int> {
    map id | id in infos && !infos[id].inTried :: infos[id].refCount
  }

  ghost predicate Collected(p: Params, infos: Infos, setTried: set<nat>, mapNew: map<nat, int>, counts: map<Network,
      NewTriedCount>) {
    setTried == Ids(p, infos, true, None) && mapNew == RefCounts(infos) && LocalCounts(p, infos, counts)
  }

  method CheckEntries(p: Params, t: Tables)
      returns (ok: bool, setTried: set<nat>, mapNew: map<nat, int>, counts: map<Network, NewTriedCount>)
    ensures ok <==> EntriesChecked(t, t.infos)
    ensures ok ==> Collected(p, t.infos, setTried, mapNew, counts)
  {
    hide Collected, EntryChecked;
    setTried, mapNew, counts := {}, map[], map[];
    ghost var seen: Infos := map[];
    var rest := t.infos.Keys;
    NothingCollected(p);
    while rest != {}
      invariant rest <= t.infos.Keys && seen == t.infos - rest && EntriesChecked(t, seen)
      invariant Collected(p, seen, setTried, mapNew, counts)
      decreases |rest|
    {
      var id :| id in rest;
      var x := t.infos[id];
      if !EntryChecked(t, id, x) { return false, setTried, mapNew, counts; }
      CollectedNext(p, seen, setTried, mapNew, counts, id, x);
      if x.inTried {
        setTried := setTried + {id};
        counts := Bump(counts, p.network(x.addr), 0, 1);
      } else {
        mapNew := mapNew[id := x.refCount];
        counts := Bump(counts, p.network(x.addr), 1, 0);
      }
      assert t.infos - (rest - {id}) == seen[id := x];
      rest := rest - {id};
      seen := seen[id := x];
    }
    assert seen == t.infos;
    ok := true;
  }

  lemma {:induction false} NothingCollected(p: Params)
    ensures Collected(p, map[], {}, map[], map[])
  {
    forall b: bool, n: Option<Network> ensures Ids(p, map[], b, n) == {} {}
  }

  lemma {:induction false} CollectedNext(p: Params, seen: Infos, setTried: set<nat>, mapNew: map<nat, int>,
      counts: map<Network, NewTriedCount>, id: nat, x: AddrInfo)
    requires Collected(p, seen, setTried, mapNew, counts) && id !in seen
    ensures if x.inTried
            then Collected(p, seen[id := x], setTried + {id}, mapNew, Bump(counts, p.network(x.addr), 0, 1))
            else Collected(p, seen[id := x], setTried, mapNew[id := x.refCount], Bump(counts, p.network(x.addr), 1, 0))
  {
    var after, net := seen[id := x], p.network(x.addr);
    var counts' := if x.inTried then Bump(counts, net, 0, 1) else Bump(counts, net, 1, 0);
    CountsNext(p, seen, counts, id, x, counts');
    hide LocalCounts;
    assert Ids(p, after, true, None) == if x.inTried then setTried + {id} else setTried;
    assert RefCounts(after) == if x.inTried then mapNew else mapNew[id := x.refCount];
  }

  lemma {:induction false} CountsNext(p: Params, seen: Infos, counts: map<Network, NewTriedCount>, id: nat,
      x: AddrInfo, counts': map<Network, NewTriedCount>)
    requires LocalCounts(p, seen, counts) && id !in seen
    requires counts' == Bump(counts, p.network(x.addr), One(!x.inTried), One(x.inTried))
    ensures LocalCounts(p, seen[id := x], counts')
  {
    hide Ids;
    var after := seen[id := x];
    forall n: Network ensures CountOf(counts', n)
        == NewTriedCount(|Ids(p, after, false, Some(n))|, |Ids(p, after, true, Some(n))|) {
      IdsUpdate(p, seen, id, x, false, Some(n));
      IdsUpdate(p, seen, id, x, true, Some(n));
      assert CountOf(counts, n) == NewTriedCount(|Ids(p, seen, false, Some(n))|, |Ids(p, seen, true, Some(n))|);
    }
    assert Networks(p, after) == Networks(p, seen) + {p.network(x.addr)} by {
      assert after[id] == x;
      forall j | j in seen ensures p.network(seen[j].addr) in Networks(p, after) { assert after[j] == seen[j]; }
    }
  }

  // ---- The tried table ----

  ghost predicate SlotOk(p: Params, infos: Infos, table: Table, s: Slot)
    requires s in table
  {
    table[s] in infos && infos[table[s]].inTried && s == TriedSlot(p, infos[table[s]].addr)
  }

  /** The first `i` slots are right, and `left` are the tried ids not found in them. */
  ghost predicate TriedSoFar(p: Params, infos: Infos, table: Table, i: nat, left: set<nat>) {
    && (forall s {:trigger table[s]} :: s in table && Index(s) < i ==> SlotOk(p, infos, table, s))
    && (forall id {:trigger id in left} :: id in left <==>
        id in infos && infos[id].inTried && !FoundBefore(p, infos[id].addr, table, i, id))
  }

  ghost predicate FoundBefore(p: Params, addr: Service, table: Table, i: nat, id: nat) {
    var s := TriedSlot(p, addr); s in table && table[s] == id && Index(s) < i
  }

  method CheckTried(p: Params, t: Tables, setTried: set<nat>) returns (ok: bool, left: set<nat>)
    requires setTried == Ids(p, t.infos, true, None) && InArray(t.tried, ADDRMAN_TRIED_BUCKET_COUNT)
    ensures ok && left == {} <==> TriedOk(p, t.infos, t.tried)
  {
    hide TriedSlot, SlotAt, Index;
    left := setTried;
    var i := 0;
    NoSlots(p, t);
    while i < ADDRMAN_TRIED_BUCKET_COUNT * ADDRMAN_BUCKET_SIZE
      invariant 0 <= i <= ADDRMAN_TRIED_BUCKET_COUNT * ADDRMAN_BUCKET_SIZE && TriedSoFar(p, t.infos, t.tried, i, left)
    {
      var s := SlotAt(i);
      if s in t.tried {
        var id := t.tried[s];
        TriedNext(p, t, i, left, s);
        if id !in left || id !in t.infos || TriedSlot(p, t.infos[id].addr) != s { return false, left; }
        left := left - {id};
      } else {
        TriedSkip(p, t, i, left);
      }
      i := i + 1;
    }
    TriedAll(p, t, i, left);
    ok := true;
  }

  lemma {:induction false} NoSlots(p: Params, t: Tables)
    ensures TriedSoFar(p, t.infos, t.tried, 0, Ids(p, t.infos, true, None))
  {
  }

  lemma {:induction false} TriedNext(p: Params, t: Tables, i: nat, left: set<nat>, s: Slot)
    requires TriedSoFar(p, t.infos, t.tried, i, left) && InArray(t.tried, ADDRMAN_TRIED_BUCKET_COUNT)
    requires s == SlotAt(i) && s in t.tried
    ensures t.tried[s] in left && TriedSlot(p, t.infos[t.tried[s]].addr) == s ==>
            TriedSoFar(p, t.infos, t.tried, i + 1, left - {t.tried[s]})
    ensures !(t.tried[s] in left && TriedSlot(p, t.infos[t.tried[s]].addr) == s) ==> !TriedOk(p, t.infos, t.tried)
  {
    hide TriedSlot, SlotAt, Index;
    var id := t.tried[s];
    assert t.tried[s] == id;
    SlotOrder(s, i);
    forall r | r in t.tried && Index(r) < i + 1 ensures r == s || Index(r) < i {
      assert t.tried[r] == t.tried[r];
      SlotOrder(r, i);
    }
  }

  lemma {:induction false} TriedSkip(p: Params, t: Tables, i: nat, left: set<nat>)
    requires TriedSoFar(p, t.infos, t.tried, i, left) && InArray(t.tried, ADDRMAN_TRIED_BUCKET_COUNT)
    requires SlotAt(i) !in t.tried
    ensures TriedSoFar(p, t.infos, t.tried, i + 1, left)
  {
    hide TriedSlot, SlotAt, Index;
    forall r | r in t.tried && Index(r) < i + 1 ensures Index(r) < i {
      assert t.tried[r] == t.tried[r];
      SlotOrder(r, i);
    }
  }

  lemma {:induction false} TriedAll(p: Params, t: Tables, i: nat, left: set<nat>)
    requires TriedSoFar(p, t.infos, t.tried, i, left) && InArray(t.tried, ADDRMAN_TRIED_BUCKET_COUNT)
    requires i == ADDRMAN_TRIED_BUCKET_COUNT * ADDRMAN_BUCKET_SIZE
    ensures left == {} <==> TriedOk(p, t.infos, t.tried)
  {
    hide TriedSlot, Index;
    forall s | s in t.tried ensures Index(s) < i && SlotOk(p, t.infos, t.tried, s) {
      AllVisited(t.tried, ADDRMAN_TRIED_BUCKET_COUNT, s);
      assert t.tried[s] == t.tried[s];
    }
    if left == {} {
      forall id | id in t.infos && t.infos[id].inTried ensures FoundBefore(p, t.infos[id].addr, t.tried, i, id) {
        assert id !in left;
      }
    }
  }

  // ---- The new table ----

  ghost function RefsBefore(table: Table, id: nat, i: nat): set<Slot> {
    set s | s in table && table[s] == id && Index(s) < i
  }

  ghost predicate NewSlotOk(p: Params, infos: Infos, table: Table, s: Slot)
    requires s in table
  {
    table[s] in infos && !infos[table[s]].inTried && s == NewSlot(p, infos[table[s]].addr, s.bucket)
  }

  /** The first `i` slots are right, and `left` counts the references not found in them. */
  ghost predicate NewSoFar(p: Params, infos: Infos, table: Table, i: nat, left: map<nat, int>) {
    && (forall s {:trigger table[s]} :: s in table && Index(s) < i ==> NewSlotOk(p, infos, table, s))
    && (forall id {:trigger infos[id]} {:trigger id in left} :: id in left ==> id in infos)
    && (forall id {:trigger infos[id]} :: id in infos ==>
          var missing := infos[id].refCount - |RefsBefore(table, id, i)|;
          if infos[id].inTried then id !in left
              else missing >= 0 && (id in left <==> missing > 0) && (id in left ==> left[id] == missing))
  }

  lemma {:induction false} RefsNext(table: Table, id: nat, i: nat)
    requires forall s :: s in table ==> s.pos < ADDRMAN_BUCKET_SIZE
    ensures |RefsBefore(table, id, i + 1)| == |RefsBefore(table, id, i)| + if SlotAt(i) in table
            && table[SlotAt(i)] == id then 1 else 0
  {
    hide SlotAt, Index;
    var a, b := RefsBefore(table, id, i), RefsBefore(table, id, i + 1);
    var s := SlotAt(i);
    forall r | r in table ensures Index(r) == i <==> r == s { SlotOrder(r, i); }
    if s in table && table[s] == id {
      assert b == a + {s};
    } else {
      assert b == a;
    }
  }

  method CheckNew(p: Params, t: Tables, mapNew: map<nat, int>) returns (ok: bool, left: map<nat, int>)
    requires mapNew == RefCounts(t.infos) && InArray(t.newTable, ADDRMAN_NEW_BUCKET_COUNT) && EntriesChecked(t, t.infos)
    ensures ok && left == map[] <==> NewOk(p, t.infos, t.newTable, {})
  {
    hide NewSlot, SlotAt, Index, EntriesChecked, NewOk, NewSoFar;
    left := mapNew;
    var i := 0;
    NoNewSlots(p, t);
    while i < ADDRMAN_NEW_BUCKET_COUNT * ADDRMAN_BUCKET_SIZE
      invariant 0 <= i <= ADDRMAN_NEW_BUCKET_COUNT * ADDRMAN_BUCKET_SIZE && NewSoFar(p, t.infos, t.newTable, i, left)
    {
      var s := SlotAt(i);
      if s in t.newTable {
        var id := t.newTable[s];
        LeftKnown(p, t, i, left, id);
        if id !in left || NewSlot(p, t.infos[id].addr, s.bucket) != s {
          NewWrong(p, t, i, left, s);
          return false, left;
        }
        NewNext(p, t, i, left, s);
        left := if left[id] - 1 == 0 then left - {id} else left[id := left[id] - 1];
      } else {
        NewSkip(p, t, i, left);
      }
      i := i + 1;
    }
    NewAll(p, t, i, left);
    ok := true;
  }

  lemma {:induction false} LeftKnown(p: Params, t: Tables, i: nat, left: map<nat, int>, id: nat)
    requires NewSoFar(p, t.infos, t.newTable, i, left)
    ensures id in left ==> id in t.infos
  {
  }

  lemma {:induction false} NoNewSlots(p: Params, t: Tables)
    requires EntriesChecked(t, t.infos)
    ensures NewSoFar(p, t.infos, t.newTable, 0, RefCounts(t.infos))
  {
    forall id: nat ensures RefsBefore(t.newTable, id, 0) == {} {}
  }

  lemma {:induction false} NewNext(p: Params, t: Tables, i: nat, left: map<nat, int>, s: Slot)
    requires NewSoFar(p, t.infos, t.newTable, i, left) && InArray(t.newTable, ADDRMAN_NEW_BUCKET_COUNT)
    requires s == SlotAt(i) && s in t.newTable
    requires t.newTable[s] in left && t.newTable[s] in t.infos && NewSlot(p, t.infos[t.newTable[s]].addr, s.bucket) == s
    ensures var id := t.newTable[s];
            NewSoFar(p, t.infos, t.newTable, i + 1, if left[id] - 1 == 0 then left - {id} else left[id := left[id] - 1])
  {
    hide NewSlot, SlotAt, Index, RefsBefore;
    var id := t.newTable[s];
    forall r | r in t.newTable && Index(r) < i + 1 ensures NewSlotOk(p, t.infos, t.newTable, r) {
      assert t.newTable[r] == t.newTable[r];
      SlotOrder(r, i);
      if r == s { assert !t.infos[id].inTried; }
    }
    forall j | j in t.infos
      ensures |RefsBefore(t.newTable, j, i + 1)| == |RefsBefore(t.newTable, j, i)| + if j == id then 1 else 0
    {
      assert forall r :: r in t.newTable ==> t.newTable[r] == t.newTable[r] && r.pos < ADDRMAN_BUCKET_SIZE;
      RefsNext(t.newTable, j, i);
    }
  }

  lemma {:induction false} NewSkip(p: Params, t: Tables, i: nat, left: map<nat, int>)
    requires NewSoFar(p, t.infos, t.newTable, i, left) && InArray(t.newTable, ADDRMAN_NEW_BUCKET_COUNT)
    requires SlotAt(i) !in t.newTable
    ensures NewSoFar(p, t.infos, t.newTable, i + 1, left)
  {
    hide NewSlot, SlotAt, Index, RefsBefore;
    forall r | r in t.newTable && Index(r) < i + 1 ensures NewSlotOk(p, t.infos, t.newTable, r) {
      assert t.newTable[r] == t.newTable[r];
      SlotOrder(r, i);
    }
    forall j | j in t.infos ensures |RefsBefore(t.newTable, j, i + 1)| == |RefsBefore(t.newTable, j, i)| {
      assert forall r :: r in t.newTable ==> t.newTable[r] == t.newTable[r] && r.pos < ADDRMAN_BUCKET_SIZE;
      RefsNext(t.newTable, j, i);
    }
  }

  /** A slot that fails the check: an unknown or tried id, one reference too many, or a wrong place. */
  lemma {:induction false} NewWrong(p: Params, t: Tables, i: nat, left: map<nat, int>, s: Slot)
    requires NewSoFar(p, t.infos, t.newTable, i, left) && InArray(t.newTable, ADDRMAN_NEW_BUCKET_COUNT)
    requires s == SlotAt(i) && s in t.newTable
    requires t.newTable[s] !in left || t.newTable[s] !in t.infos
            || NewSlot(p, t.infos[t.newTable[s]].addr, s.bucket) != s
    ensures !NewOk(p, t.infos, t.newTable, {})
  {
    hide NewSlot, SlotAt, Index;
    var id := t.newTable[s];
    if NewOk(p, t.infos, t.newTable, {}) {
      assert t.newTable[s] == id;
      assert id !in left && t.infos[id].addr == t.infos[id].addr;
      SlotOrder(s, i);
      var before, all := RefsBefore(t.newTable, id, i), Refs(t.newTable, id);
      assert s in all && before <= all - {s};
      Sums.SubsetCard(before, all - {s});
      assert false;
    }
  }

  lemma {:induction false} NewAll(p: Params, t: Tables, i: nat, left: map<nat, int>)
    requires NewSoFar(p, t.infos, t.newTable, i, left) && InArray(t.newTable, ADDRMAN_NEW_BUCKET_COUNT)
    requires i == ADDRMAN_NEW_BUCKET_COUNT * ADDRMAN_BUCKET_SIZE
    requires EntriesChecked(t, t.infos)
    ensures left == map[] <==> NewOk(p, t.infos, t.newTable, {})
  {
    hide NewSlot, Index;
    forall s | s in t.newTable ensures Index(s) < i && NewSlotOk(p, t.infos, t.newTable, s)
        && s.bucket < ADDRMAN_NEW_BUCKET_COUNT {
      AllVisited(t.newTable, ADDRMAN_NEW_BUCKET_COUNT, s);
      assert t.newTable[s] == t.newTable[s];
    }
    forall id | id in t.infos ensures RefsBefore(t.newTable, id, i) == Refs(t.newTable, id)
        && (t.infos[id].inTried ==> Refs(t.newTable, id) == {}) {}
    if left == map[] {
      forall id | id in t.infos ensures t.infos[id].refCount == |Refs(t.newTable, id)| {
        assert EntryChecked(t, id, t.infos[id]);
      }
    }
    if NewOk(p, t.infos, t.newTable, {}) {
      forall id | id in t.infos ensures id !in left {
        assert t.infos[id].refCount == |Refs(t.newTable, id)|;
      }
    }
  }

  // ---- The whole check ----

  method CheckCounters(p: Params, t: Tables, counts: map<Network, NewTriedCount>) returns (err: int)
    requires LocalCounts(p, t.infos, counts)
    ensures err == 0 <==> CountersChecked(p, t)
  {
    hide Ids;
    assert |counts| == |counts.Keys|;
    if |t.counts| < |counts| { return -20; }
    var rest := t.counts.Keys;
    while rest != {}
      invariant rest <= t.counts.Keys
      invariant forall n {:trigger t.counts[n]} :: n in t.counts && n !in rest ==>
              t.counts[n] == NewTriedCount(|Ids(p, t.infos, false, Some(n))|, |Ids(p, t.infos, true, Some(n))|)
      decreases |rest|
    {
      var net :| net in rest;
      assert CountOf(counts, net)
          == NewTriedCount(|Ids(p, t.infos, false, Some(net))|, |Ids(p, t.infos, true, Some(net))|);
      if CountOf(counts, net) != t.counts[net] { return -21; }
      rest := rest - {net};
    }
    err := 0;
  }

  /** Codes other than 0 are grouped by the table they are found in. */
  method CheckAddrman(p: Params, t: Tables, keyIsNull: bool) returns (err: int)
    requires InArray(t.tried, ADDRMAN_TRIED_BUCKET_COUNT) && InArray(t.newTable, ADDRMAN_NEW_BUCKET_COUNT)
    ensures err == 0 <==> Checked(p, t) && !keyIsNull
  {
    hide EntriesChecked, TriedOk, NewOk, CountersChecked, LocalCounts, Ids, RefCounts;
    if |t.random| != t.nTried + t.nNew { return -7; }
    var ok, setTried, mapNew, counts := CheckEntries(p, t);
    if !ok { return -1; }
    NewCount(p, t.infos);
    if |setTried| != t.nTried { return -9; }
    if |mapNew| != t.nNew { return -10; }
    var triedOk, triedLeft := CheckTried(p, t, setTried);
    if !triedOk { return -11; }
    var newOk, newLeft := CheckNew(p, t, mapNew);
    if !newOk { return -12; }
    if triedLeft != {} { return -13; }
    if newLeft != map[] { return -15; }
    if keyIsNull { return -16; }
    err := CheckCounters(p, t, counts);
  }

  lemma {:induction false} NewCount(p: Params, infos: Infos)
    ensures |RefCounts(infos)| == |Ids(p, infos, false, None)|
  {
    assert RefCounts(infos).Keys == Ids(p, infos, false, None);
    assert |RefCounts(infos)| == |RefCounts(infos).Keys|;
  }

  lemma {:induction false} RandomCount(infos: Infos, random: seq<nat>)
    requires RandomOk(infos, random)
    ensures |random| == |infos.Keys|
  {
    assert Sums.Distinct(random);
    Sums.DistinctCard(random);
    assert Sums.Elems(random) == infos.Keys;
  }

  lemma {:induction false} TotalCount(p: Params, infos: Infos)
    ensures |infos.Keys| == |Ids(p, infos, true, None)| + |Ids(p, infos, false, None)|
  {
    assert infos.Keys == Ids(p, infos, true, None) + Ids(p, infos, false, None);
  }

  /** Consistent tables pass the check. */
  lemma {:induction false} ConsistentChecked(p: Params, t: Tables)
    requires Consistent(p, t, {})
    ensures Checked(p, t)
  {
    ConsistentEntries(p, t);
    RandomCount(t.infos, t.random);
    TotalCount(p, t.infos);
    Sums.SubsetCard(Networks(p, t.infos), t.counts.Keys);
    assert |t.counts| == |t.counts.Keys|;
  }

  lemma {:induction false} ConsistentEntries(p: Params, t: Tables)
    requires Consistent(p, t, {})
    ensures EntriesChecked(t, t.infos)
  {
    hide TriedOk, CountsOk, Refs, NewSlot;
  }

  /** Consistent tables fit the arrays. */
  lemma {:induction false} ConsistentInArray(p: Params, t: Tables)
    requires Consistent(p, t, {})
    ensures InArray(t.tried, ADDRMAN_TRIED_BUCKET_COUNT) && InArray(t.newTable, ADDRMAN_NEW_BUCKET_COUNT)
  {
    hide IndexOk, RandomOk, CountsOk;
  }
}
