/** One level of the coins caching hierarchy as a value: cached entries over the coins visible
    below them (src/coins.h, CCoinsCacheEntry; src/coins.cpp, CCoinsViewCache). */
module CoinsTheory {
  import opened Options

  datatype OutPoint = OutPoint(hash: nat, n: nat)

  const OP_RETURN: nat := 0x6a
  const MAX_SCRIPT_SIZE := 129000

  datatype Coin = Coin(value: int, script: seq<nat>, height: nat, coinBase: bool, coinStake: bool)

  /** A coin that never existed, or was spent. */
  const NULL_COIN := Coin(-1, [], 0, false, false)

  predicate IsSpent(c: Coin) {
    c.value == -1
  }

  predicate IsUnspendable(c: Coin) {
    (|c.script| > 0 && c.script[0] == OP_RETURN) || |c.script| > MAX_SCRIPT_SIZE
  }

  /** What can never be spent stays so when its script is extended, and the null coin is not of that kind. */
  lemma {:induction false} UnspendableLaws(c: Coin, more: seq<nat>)
    ensures IsUnspendable(c) ==> IsUnspendable(c.(script := c.script + more))
    ensures IsUnspendable(c.(script := [OP_RETURN] + more))
    ensures |c.script| + |more| > MAX_SCRIPT_SIZE ==> IsUnspendable(c.(script := c.script + more))
    ensures IsSpent(NULL_COIN) && !IsUnspendable(NULL_COIN)
  {
    var s := c.script + more;
    assert c.script != [] ==> s[0] == c.script[0];
  }

  /** Heap memory of a coin: scripts of up to 28 bytes are stored inline. */
  function Usage(c: Coin): nat {
    if |c.script| <= 28 then 0 else (|c.script| + 31) / 16 * 16
  }

  datatype Entry = Entry(coin: Coin, isDirty: bool, isFresh: bool)

  predicate Flagged(e: Entry) {
    e.isDirty || e.isFresh
  }

  type Entries = map<OutPoint, Entry>
  type Coins = map<OutPoint, Coin>

  /** The coins visible through a cache over `below`. */
  ghost function Visible(es: Entries, below: Coins): Coins {
    map k | k in es.Keys + below.Keys && (k in es ==> !IsSpent(es[k].coin)) :: if k in es then es[k].coin else below[k]
  }

  /** The unspent coins of a backing store. */
  ghost function Unspent(cs: Coins): Coins {
    map k | k in cs && !IsSpent(cs[k]) :: cs[k]
  }

  /** Only five of the eight combinations of spent, DIRTY and FRESH occur. */
  predicate StateOk(e: Entry) {
    && !(!e.isDirty && e.isFresh && !IsSpent(e.coin))
    && !(!e.isDirty && !e.isFresh && IsSpent(e.coin))
    && !(e.isDirty && e.isFresh && IsSpent(e.coin))
  }

  /** FRESH: nothing visible below. Not DIRTY: the same as what is visible below. */
  ghost predicate EntryOk(k: OutPoint, e: Entry, below: Coins) {
    && StateOk(e) && (e.isDirty && IsSpent(e.coin) ==> e.coin == NULL_COIN)
    && (e.isFresh ==> k !in below)
    && (!e.isDirty ==> if IsSpent(e.coin) then k !in below else k in below && below[k] == e.coin)
  }

  ghost predicate LayerOk(es: Entries, below: Coins) {
    && (forall k {:trigger es[k]} :: k in es ==> EntryOk(k, es[k], below))
    && (forall k {:trigger below[k]} :: k in below ==> !IsSpent(below[k]))
  }

  lemma {:induction false} VisibleUnspent(es: Entries, below: Coins)
    requires LayerOk(es, below)
    ensures forall k {:trigger Visible(es, below)[k]} :: k in Visible(es, below) ==> !IsSpent(Visible(es, below)[k])
  {
  }

  // ---- Fetching and forgetting ----

  /** `c` is what the view below returns for `k`. */
  ghost predicate ReturnedBelow(k: OutPoint, c: Option<Coin>, below: Coins) {
    match c
    case None => k !in below
    case Some(coin) => if IsSpent(coin) then k !in below else k in below && below[k] == coin
  }

  function Fetched(es: Entries, k: OutPoint, c: Coin): Entries {
    es[k := Entry(c, false, IsSpent(c))]
  }

  /** Caching a coin from below changes nothing that is visible. */
  lemma {:induction false} FetchKeeps(es: Entries, below: Coins, k: OutPoint, c: Coin)
    requires LayerOk(es, below) && k !in es && ReturnedBelow(k, Some(c), below)
    ensures LayerOk(Fetched(es, k, c), below) && Visible(Fetched(es, k, c), below) == Visible(es, below)
  {
  }

  /** Nor does forgetting an entry without flags. */
  lemma {:induction false} UncacheKeeps(es: Entries, below: Coins, k: OutPoint)
    requires LayerOk(es, below) && k in es && !Flagged(es[k])
    ensures LayerOk(es - {k}, below) && Visible(es - {k}, below) == Visible(es, below)
  {
  }

  // ---- Adding and spending ----

  /** Whether AddCoin throws. */
  predicate OverwriteDetected(es: Entries, k: OutPoint, overwrite: bool) {
    !overwrite && k in es && !IsSpent(es[k].coin)
  }

  function Added(es: Entries, k: OutPoint, c: Coin, overwrite: bool): Entries {
    var wasDirty, wasFresh := k in es && es[k].isDirty, k in es && es[k].isFresh;
    es[k := Entry(c, true, wasFresh || (!overwrite && !wasDirty))]
  }

  /** Adding a coin that AddCoin does not reject shows it; the flags stay truthful exactly when
      overwriting was allowed or there was no coin to overwrite. */
  lemma {:induction false} AddKeeps(es: Entries, below: Coins, k: OutPoint, c: Coin, overwrite: bool)
    requires LayerOk(es, below) && !IsSpent(c) && !OverwriteDetected(es, k, overwrite)
    ensures Visible(Added(es, k, c, overwrite), below) == Visible(es, below)[k := c]
    ensures LayerOk(Added(es, k, c, overwrite), below) <==> overwrite || k !in Visible(es, below)
  {
    var es' := Added(es, k, c, overwrite);
    if overwrite || k !in Visible(es, below) {
      assert EntryOk(k, es'[k], below);
      forall j | j in es' ensures EntryOk(j, es'[j], below) {
        if j != k { assert es'[j] == es[j]; }
      }
    } else {
      assert !EntryOk(k, es'[k], below);
    }
    assert Visible(es', below) == Visible(es, below)[k := c];
  }

  /** A coin that the cache has not loaded is overwritten unnoticed, and the flags then lie. */
  lemma {:induction false} UnnoticedOverwrite(k: OutPoint, c: Coin, there: Coin)
    requires !IsSpent(c) && !IsSpent(there)
    ensures LayerOk(map[], map[k := there]) && !OverwriteDetected(map[], k, false)
    ensures !LayerOk(Added(map[], k, c, false), map[k := there])
  {
    assert !EntryOk(k, Added(map[], k, c, false)[k], map[k := there]);
  }

  function Spent(es: Entries, k: OutPoint): Entries
    requires k in es
  {
    if es[k].isFresh then es - {k} else es[k := Entry(NULL_COIN, true, false)]
  }

  lemma {:induction false} SpendKeeps(es: Entries, below: Coins, k: OutPoint)
    requires LayerOk(es, below) && k in es
    ensures LayerOk(Spent(es, k), below) && Visible(Spent(es, k), below) == Visible(es, below) - {k}
  {
    SpendLayer(es, below, k);
    assert EntryOk(k, es[k], below);
    assert es[k].isFresh ==> k !in below;
    hide EntryOk, LayerOk;
    HideOne(es, Spent(es, k), below, k);
  }

  /** A coin disappears, the others stay. */
  lemma {:induction false} HideOne(es: Entries, after: Entries, below: Coins, k: OutPoint)
    requires (forall j :: j in after && j != k ==> j in es && after[j] == es[j])
    requires (forall j :: j in es && j != k ==> j in after)
    requires if k in after then IsSpent(after[k].coin) else k !in below
    ensures Visible(after, below) == Visible(es, below) - {k}
  {
    hide IsSpent;
    var v, w := Visible(after, below), Visible(es, below);
    assert k !in v;
    assert forall j :: j != k ==> (j in v <==> j in w);
    assert forall j :: j in v ==> v[j] == w[j];
  }

  lemma {:induction false} SpendLayer(es: Entries, below: Coins, k: OutPoint)
    requires LayerOk(es, below) && k in es
    ensures LayerOk(Spent(es, k), below)
  {
    assert EntryOk(k, es[k], below);
  }

  // ---- Writing a child's entry to its parent ----

  /** The exception of BatchWrite. */
  predicate FreshMisapplied(es: Entries, k: OutPoint, e: Entry) {
    e.isDirty && k in es && e.isFresh && !IsSpent(es[k].coin)
  }

  /** The parent after one entry of the child was written. */
  function Written(es: Entries, k: OutPoint, e: Entry): Entries {
    if !e.isDirty then es
    else if k !in es then
      if e.isFresh && IsSpent(e.coin) then es else es[k := Entry(e.coin, true, e.isFresh)]
    else if es[k].isFresh && IsSpent(e.coin) then es - {k}
    else es[k := Entry(e.coin, true, es[k].isFresh)]
  }

  /** The coins visible in the parent with the child's version at `k`. */
  ghost function Overlaid(cs: Coins, k: OutPoint, e: Entry): Coins {
    if !e.isDirty then cs else if IsSpent(e.coin) then cs - {k} else cs[k := e.coin]
  }

  lemma {:induction false} WriteEntry(es: Entries, below: Coins, k: OutPoint, e: Entry)
    requires LayerOk(es, below) && EntryOk(k, e, Visible(es, below))
    ensures !FreshMisapplied(es, k, e)
    ensures k in Written(es, k, e) ==> EntryOk(k, Written(es, k, e)[k], below)
    ensures e.isDirty && k !in Written(es, k, e) ==> k !in below && IsSpent(e.coin)
    ensures e.isDirty && k in Written(es, k, e) ==> Written(es, k, e)[k].coin == e.coin
  {
    if k in es { assert EntryOk(k, es[k], below); }
  }

  lemma {:induction false} WriteElsewhere(es: Entries, k: OutPoint, e: Entry, j: OutPoint)
    requires j != k
    ensures j in Written(es, k, e) <==> j in es
    ensures j in es ==> Written(es, k, e)[j] == es[j]
  {
  }

  /** Writing one entry of a truthful child: no exception, the parent shows the child's version,
      and its own flags stay truthful. */
  lemma {:induction false} WriteKeeps(es: Entries, below: Coins, k: OutPoint, e: Entry)
    requires LayerOk(es, below) && EntryOk(k, e, Visible(es, below))
    ensures !FreshMisapplied(es, k, e)
    ensures LayerOk(Written(es, k, e), below)
    ensures Visible(Written(es, k, e), below) == Overlaid(Visible(es, below), k, e)
  {
    hide EntryOk, Written;
    var es' := Written(es, k, e);
    WriteEntry(es, below, k, e);
    forall j | j in es' ensures EntryOk(j, es'[j], below) {
      if j != k { WriteElsewhere(es, k, e, j); }
    }
    if e.isDirty {
      var vs, vs' := Visible(es, below), Visible(es', below);
      forall j | j != k ensures (j in vs' <==> j in vs) && (j in vs ==> vs'[j] == vs[j]) {
        WriteElsewhere(es, k, e, j);
      }
      assert k in vs' <==> !IsSpent(e.coin);
    } else {
      NotWritten(es, k, e);
    }
  }

  lemma {:induction false} NotWritten(es: Entries, k: OutPoint, e: Entry)
    requires !e.isDirty
    ensures Written(es, k, e) == es
  {
  }

  // ---- Writing all flagged entries ----

  ghost predicate FlaggedKeys(es: Entries, ks: seq<OutPoint>) {
    && (forall i, j :: 0 <= i < j < |ks| ==> ks[i] != ks[j])
    && (forall k {:trigger k in ks} :: k in ks <==> k in es && Flagged(es[k]))
  }

  /** The parent's coins once the entries of the keys `ks[..n]` were written. */
  ghost predicate WrittenUpTo(cs: Coins, parent: Coins, es: Entries, ks: seq<OutPoint>, n: nat)
    requires n <= |ks|
  {
    forall k {:trigger k in cs} ::
      if k in ks[..n] && k in es && es[k].isDirty then
        (k in cs <==> !IsSpent(es[k].coin)) && (k in cs ==> cs[k] == es[k].coin)
      else (k in cs <==> k in parent) && (k in cs ==> cs[k] == parent[k])
  }

  lemma {:induction false} WrittenStep(cs: Coins, parent: Coins, es: Entries, ks: seq<OutPoint>, n: nat)
    requires n < |ks| && FlaggedKeys(es, ks) && WrittenUpTo(cs, parent, es, ks, n)
    ensures ks[n] in es && WrittenUpTo(Overlaid(cs, ks[n], es[ks[n]]), parent, es, ks, n + 1)
  {
    assert ks[n] in ks;
    assert ks[..n + 1] == ks[..n] + [ks[n]];
  }

  /** The entry to be written next is still truthful about the parent. */
  lemma {:induction false} NextStillOk(cs: Coins, parent: Coins, es: Entries, ks: seq<OutPoint>, n: nat)
    requires n < |ks| && FlaggedKeys(es, ks) && WrittenUpTo(cs, parent, es, ks, n) && LayerOk(es, parent)
    ensures ks[n] in es && EntryOk(ks[n], es[ks[n]], cs)
  {
    var k := ks[n];
    assert k in ks && k !in ks[..n];
    assert EntryOk(k, es[k], parent);
    assert k in cs <==> k in parent;
  }

  /** When all are written, the parent shows what the child shows. */
  lemma {:induction false} WrittenAll(cs: Coins, parent: Coins, es: Entries, ks: seq<OutPoint>)
    requires FlaggedKeys(es, ks) && WrittenUpTo(cs, parent, es, ks, |ks|) && LayerOk(es, parent)
    ensures cs == Visible(es, parent)
  {
    assert ks[..|ks|] == ks;
    forall k ensures (k in cs <==> k in Visible(es, parent)) && (k in cs ==> cs[k] == Visible(es, parent)[k]) {
      if k in es {
        assert EntryOk(k, es[k], parent);
        assert k in ks <==> Flagged(es[k]);
      } else {
        assert k !in ks;
      }
    }
  }

  /** The store after an entry was written to it. */
  function StoreWritten(cs: Coins, k: OutPoint, e: Entry): Coins {
    if !e.isDirty then cs else if IsSpent(e.coin) then cs - {k} else cs[k := e.coin]
  }

  lemma {:induction false} StoreKeeps(cs: Coins, k: OutPoint, e: Entry)
    ensures Unspent(StoreWritten(cs, k, e)) == Overlaid(Unspent(cs), k, e)
  {
  }

  /** The child's entries when `ks[..n]` are written and cleaned up, or kept to be wiped. */
  ghost function CleanedUpTo(es: Entries, ks: seq<OutPoint>, n: nat, willErase: bool): Entries
    requires n <= |ks|
  {
    map k | k in es && (willErase || !(k in ks[..n] && IsSpent(es[k].coin))) ::
      if !willErase && k in ks[..n] then Entry(es[k].coin, false, false) else es[k]
  }

  lemma {:induction false} NoneCleaned(es: Entries, ks: seq<OutPoint>, willErase: bool)
    ensures CleanedUpTo(es, ks, 0, willErase) == es
  {
  }

  lemma {:induction false} CleanedStep(es: Entries, ks: seq<OutPoint>, n: nat, willErase: bool)
    requires n < |ks| && FlaggedKeys(es, ks)
    ensures var c := CleanedUpTo(es, ks, n, willErase);
            && ks[n] in c && c[ks[n]] == es[ks[n]]
            && CleanedUpTo(es, ks, n + 1, willErase) ==
                 if willErase then c
                     else if IsSpent(es[ks[n]].coin) then c - {ks[n]}
                     else c[ks[n] := Entry(es[ks[n]].coin, false, false)]
  {
    assert ks[n] in ks && ks[n] !in ks[..n];
    assert ks[..n + 1] == ks[..n] + [ks[n]];
  }

  lemma {:induction false} AllCleaned(es: Entries, ks: seq<OutPoint>)
    requires FlaggedKeys(es, ks)
    ensures CleanedUpTo(es, ks, |ks|, false) == Synced(es)
  {
    assert ks[..|ks|] == ks;
    forall k | k in es ensures k in ks <==> Flagged(es[k]) {}
  }

  /** What Sync leaves in the child: spent flagged entries are gone, the others have no flags. */
  ghost function Synced(es: Entries): Entries {
    map k | k in es && !(Flagged(es[k]) && IsSpent(es[k].coin)) :: Entry(es[k].coin, false, false)
  }

  lemma {:induction false} SyncKeeps(es: Entries, parent: Coins)
    requires LayerOk(es, parent)
    ensures LayerOk(Synced(es), Visible(es, parent)) && Visible(Synced(es), Visible(es, parent)) == Visible(es, parent)
  {
    var cs := Visible(es, parent);
    forall k | k in Synced(es) ensures EntryOk(k, Synced(es)[k], cs) {
      assert EntryOk(k, es[k], parent);
    }
    VisibleUnspent(es, parent);
  }

  lemma {:induction false} EmptyLayer(below: Coins)
    requires forall k {:trigger below[k]} :: k in below ==> !IsSpent(below[k])
    ensures LayerOk(map[], below) && Visible(map[], below) == below && Total(map[]) == 0
  {
  }

  // ---- Memory accounting ----

  ghost function Total(es: Entries): nat {
    if es == map[] then 0 else
      var k :| k in es;
      Usage(es[k].coin) + Total(es - {k})
  }

  lemma {:induction false} TotalRemove(es: Entries, k: OutPoint)
    requires k in es
    ensures Total(es) == Usage(es[k].coin) + Total(es - {k})
    decreases |es|
  {
    var j :| j in es && Total(es) == Usage(es[j].coin) + Total(es - {j});
    if j != k {
      TotalRemove(es - {j}, k);
      TotalRemove(es - {k}, j);
      assert es - {j} - {k} == es - {k} - {j};
    }
  }

  lemma {:induction false} TotalUpdate(es: Entries, k: OutPoint, e: Entry)
    ensures Total(es[k := e]) == Usage(e.coin) + (if k in es then Total(es) - Usage(es[k].coin) else Total(es))
  {
    TotalRemove(es[k := e], k);
    if k in es {
      assert es[k := e] - {k} == es - {k};
      TotalRemove(es, k);
    } else {
      assert es[k := e] - {k} == es;
    }
  }
}
