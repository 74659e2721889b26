/** Coins views stacked on each other (src/coins.cpp, class CCoinsViewCache). */
module CoinsCaches {
  import opened Options
  import opened CoinsTheory
  import opened CoinsLists

  /** The view at the bottom of the stack. */
  class CoinsStore {
    var coins: Coins

    constructor (coins: Coins)
      ensures this.coins == coins
    {
      this.coins := coins;
    }
  }

  /** A cache's flags are truthful about what is below, and its counters are right. */
  ghost predicate Truthful(es: Entries, below: Coins, view: Coins, usage: int) {
    LayerOk(es, below) && view == Visible(es, below) && usage == Total(es)
  }

  /** One cache over its base, which is `parent` or, at the bottom, `store`. */
  class CoinsViewCache {
    const parent: CoinsViewCache?
    const store: CoinsStore
    const sentinel: CoinsCachePair
    var cacheCoins: map<OutPoint, CoinsCachePair>
    var cachedCoinsUsage: int
    var hashBlock: nat
    /** The sentinel and the flagged entries, in list order. */
    ghost var nodes: seq<CoinsCachePair>
    /** The entries as values. */
    ghost var entries: Entries
    /** The coins this view shows. */
    ghost var view: Coins
    ghost var own: set<CoinsCachePair>
    ghost var Repr: set<object>
    ghost const depth: nat

    ghost predicate PairOk(k: OutPoint)
      requires k in cacheCoins && cacheCoins[k] in own
      reads this`cacheCoins, this`nodes, this`own, own
    {
      var p := cacheCoins[k];
      p.key == k && p != sentinel && (p in nodes <==> p.HasFlags()) && (!p.HasFlags() ==> p.Unlinked())
    }

    /** `entries` are the values of the entries. */
    ghost predicate Mirrored()
      reads this`cacheCoins, this`entries, this`own, own
    {
      && entries.Keys == cacheCoins.Keys
      && forall k {:trigger cacheCoins[k]} {:trigger entries[k]} :: k in cacheCoins ==>
          cacheCoins[k] in own && entries[k] == cacheCoins[k].Value()
    }

    ghost predicate Structure()
      reads this`cacheCoins, this`nodes, this`entries, this`own, own
    {
      Shape() && Mirrored()
    }

    /** The list holds exactly the flagged entries of the map. */
    ghost predicate Shape()
      reads this`cacheCoins, this`nodes, this`own, own
    {
      && (forall n :: n in nodes ==> n in own) && Ring(nodes) && nodes[0] == sentinel
      && (forall k {:trigger PairOk(k)} {:trigger cacheCoins[k]} :: k in cacheCoins ==>
          cacheCoins[k] in own && PairOk(k))
      && (forall n :: n in nodes && n != sentinel ==> n.key in cacheCoins && cacheCoins[n.key] == n)
    }

    /** The coins the base shows. */
    ghost function Below(): Coins
      reads parent, store
    {
      if parent == null then Unspent(store.coins) else parent.view
    }

    ghost predicate Separate()
      reads this`Repr, this`own, parent
    {
      && this in Repr && own <= Repr && store !in Repr
      && (parent != null ==> this !in parent.Repr && (forall n :: n in own ==> n !in parent.Repr))
    }

    ghost predicate ParentValid()
      reads this, Repr, store
      decreases depth, 0
    {
      parent != null ==>
          parent in Repr && parent.Repr <= Repr && parent.depth < depth && parent.store == store && parent.Valid()
    }

    ghost predicate Valid()
      reads this, Repr, store
      decreases depth, 1
    {
      this in Repr && ParentValid() && Separate() && Structure() && Truthful(entries, Below(), view, cachedCoinsUsage)
    }

    /** An empty cache over a store. */
    constructor OverStore(store: CoinsStore)
      ensures Valid() && fresh(Repr) && this.store == store && parent == null && view == Unspent(store.coins)
    {
      this.store, parent, depth := store, null, 0;
      var s := new CoinsCachePair.Sentinel();
      sentinel, cacheCoins, cachedCoinsUsage, hashBlock := s, map[], 0, 0;
      nodes, entries, own := [s], map[], {s};
      view := Unspent(store.coins);
      Repr := {this, s};
      new;
      EmptyLayer(Below());
    }

    lemma {:induction false} NewStructure()
      requires Ring([sentinel]) && nodes == [sentinel] && own == {sentinel} && cacheCoins == map[] && entries == map[]
      ensures Structure()
    {
    }

    lemma {:induction false} Assemble()
      requires this in Repr && Separate() && Structure() && Truthful(entries, Below(), view, cachedCoinsUsage)
      requires parent != null ==>
              parent in Repr && parent.Repr <= Repr && parent.depth < depth && parent.store == store && parent.Valid()
      ensures Valid()
    {
    }

    lemma {:induction false} Basics()
      requires Valid()
      ensures this in Repr && store !in Repr && forall k {:trigger view[k]} :: k in view ==> !IsSpent(view[k])
    {
      hide Structure, ParentValid;
      VisibleUnspent(entries, Below());
    }

    /** An empty cache over another one. */
    constructor Over(parent: CoinsViewCache)
      requires parent.Valid()
      ensures Valid() && fresh(Repr - parent.Repr) && this.store == parent.store && this.parent == parent
      ensures view == parent.view
    {
      hide Valid, Ring, LayerOk, Visible, Total, Structure;
      this.store, this.parent, depth := parent.store, parent, parent.depth + 1;
      var s := new CoinsCachePair.Sentinel();
      sentinel, cacheCoins, cachedCoinsUsage, hashBlock := s, map[], 0, 0;
      nodes, entries, own := [s], map[], {s};
      view := parent.view;
      Repr := parent.Repr + {this, s};
      new;
      NewStructure();
      parent.Basics();
      EmptyLayer(Below());
      Assemble();
    }

    // ---- Changes to one entry ----

    /** A new entry without flags. */
    method Insert(k: OutPoint, c: Coin) returns (pair: CoinsCachePair)
      requires Structure() && k !in cacheCoins
      modifies this`cacheCoins, this`entries, this`own
      ensures Structure() && entries == old(entries)[k := Entry(c, false, false)] && pair.Value() == entries[k]
      ensures cacheCoins == old(cacheCoins)[k := pair] && fresh(pair) && own == old(own) + {pair}
    {
      pair := new CoinsCachePair(k, c);
      cacheCoins := cacheCoins[k := pair];
      own := own + {pair};
      entries := entries[k := Entry(c, false, false)];
      forall j | j in cacheCoins ensures PairOk(j) {
        if j != k { assert old(PairOk(j)); }
      }
    }

    /** Set flags of an entry. */
    method Flag(k: OutPoint, pair: CoinsCachePair, dirty: bool, isFresh: bool)
      requires Structure() && k in cacheCoins && cacheCoins[k] == pair && (dirty || isFresh)
      modifies this`nodes, this`entries, own`prev, own`next, pair`isDirty, pair`isFresh
      ensures Structure() && pair.Value() == entries[k]
      ensures entries == old(entries)[k := Entry(pair.coin, old(pair.isDirty) || dirty, old(pair.isFresh) || isFresh)]
    {
      hide PairOk, Ring;
      Distinct(k);
      Link(k, pair, dirty, isFresh);
      entries := entries[k := pair.Value()];
    }

    lemma {:induction false} Distinct(k: OutPoint)
      requires Shape() && k in cacheCoins
      ensures forall j {:trigger cacheCoins[j]} :: j in cacheCoins && j != k ==> cacheCoins[j] != cacheCoins[k]
    {
    }

    method Link(k: OutPoint, pair: CoinsCachePair, dirty: bool, isFresh: bool)
      requires Shape() && k in cacheCoins && cacheCoins[k] == pair && (dirty || isFresh)
      modifies this`nodes, own`prev, own`next, pair`isDirty, pair`isFresh
      ensures Shape() && pair.isDirty == (old(pair.isDirty) || dirty) && pair.isFresh == (old(pair.isFresh) || isFresh)
    {
      assert |nodes| > 0;
      hide Ring;
      assert PairOk(k);
      nodes := AddFlags(dirty, isFresh, pair, sentinel, nodes);
      forall j | j in cacheCoins ensures PairOk(j) {
        assert old(PairOk(j));
      }
    }

    /** Replace the coin of an entry. */
    method SetCoin(k: OutPoint, pair: CoinsCachePair, c: Coin)
      requires Structure() && k in cacheCoins && cacheCoins[k] == pair
      modifies this`entries, pair`coin
      ensures Structure() && entries == old(entries)[k := Entry(c, pair.isDirty, pair.isFresh)]
      ensures pair.Value() == entries[k]
    {
      Distinct(k);
      pair.coin := c;
      entries := entries[k := pair.Value()];
      forall j | j in cacheCoins ensures PairOk(j) {
        assert old(PairOk(j));
      }
    }

    /** `at` is where the list had `pair`. */
    ghost predicate Unlinks(before: seq<CoinsCachePair>, pair: CoinsCachePair, hadFlags: bool)
      reads this`nodes
    {
      if hadFlags then
        exists at {:trigger before[at]} :: 0 < at < |before| && before[at] == pair && nodes == Without(before, at)
      else
        nodes == before
    }

    /** Clear the flags of an entry. */
    method Clean(k: OutPoint, pair: CoinsCachePair)
      requires Structure() && k in cacheCoins && cacheCoins[k] == pair
      modifies this`nodes, this`entries, own`prev, own`next, pair`isDirty, pair`isFresh
      ensures Structure() && entries == old(entries)[k := Entry(pair.coin, false, false)]
      ensures Unlinks(old(nodes), pair, old(pair.HasFlags()))
    {
      hide PairOk, Ring, Unlinks;
      Distinct(k);
      Unlink(k, pair);
      entries := entries[k := pair.Value()];
    }

    method Unlink(k: OutPoint, pair: CoinsCachePair)
      requires Shape() && k in cacheCoins && cacheCoins[k] == pair
      modifies this`nodes, own`prev, own`next, pair`isDirty, pair`isFresh
      ensures Shape() && !pair.HasFlags() && Unlinks(old(nodes), pair, old(pair.HasFlags()))
    {
      assert |nodes| > 0;
      hide Ring;
      assert PairOk(k);
      ghost var at := 0;
      ghost var before := nodes;
      if pair.HasFlags() {
        at :| 0 <= at < |nodes| && nodes[at] == pair;
        WithoutMembers(nodes, at);
        nodes := Without(nodes, at);
      }
      SetClean(pair, before, at);
      forall j | j in cacheCoins ensures PairOk(j) {
        assert old(PairOk(j));
      }
    }

    /** Remove an entry; its destructor unlinks it. */
    method Erase(k: OutPoint, pair: CoinsCachePair)
      requires Structure() && k in cacheCoins && cacheCoins[k] == pair
      modifies this`nodes, this`entries, this`cacheCoins, own`prev, own`next, pair`isDirty, pair`isFresh
      ensures Structure() && entries == old(entries) - {k} && cacheCoins == old(cacheCoins) - {k}
      ensures Unlinks(old(nodes), pair, old(pair.HasFlags()))
    {
      hide Ring, Unlinks;
      Unlink(k, pair);
      label cleaned:
      assert PairOk(k);
      cacheCoins := cacheCoins - {k};
      entries := entries - {k};
      forall j | j in cacheCoins ensures PairOk(j) {
        assert old@cleaned(PairOk(j));
      }
    }

    // ---- Reading ----

    lemma {:induction false} SameKeys()
      requires Structure()
      ensures entries.Keys == cacheCoins.Keys
    {
    }

    /** What the base returns for an outpoint. The base may cache it. */
    method GetBelow(k: OutPoint) returns (c: Option<Coin>)
      requires Valid()
      modifies this`Repr, Repr - {this} - own
      ensures Valid() && fresh(Repr - old(Repr)) && Below() == old(Below()) && ReturnedBelow(k, c, Below())
      decreases depth, 0
    {
      hide Structure, Truthful;
      if parent == null {
        c := if k in store.coins then Some(store.coins[k]) else None;
      } else {
        c := parent.GetCoin(k);
        Repr := Repr + parent.Repr;
        parent.Basics();
      }
    }

    /** The entry of an outpoint, cached now if the base has it. */
    method FetchCoin(k: OutPoint) returns (found: CoinsCachePair?)
      requires Valid()
      modifies Repr
      ensures Valid() && view == old(view) && Below() == old(Below()) && fresh(Repr - old(Repr))
      ensures k in old(cacheCoins) ==> entries == old(entries)
      ensures if found == null then k !in cacheCoins && entries == old(entries) && k !in view
              else k in cacheCoins && cacheCoins[k] == found && entries - {k} == old(entries) - {k}
      ensures k !in old(cacheCoins) && k in view ==> entries == old(entries)[k := Entry(view[k], false, false)]
      decreases depth, 1
    {
      hide Structure, Truthful;
      if k in cacheCoins { return cacheCoins[k]; }
      var c := GetBelow(k);
      if c == None {
        NotVisible(k);
        return null;
      }
      VisibleBelow(k, c.value);
      found := CacheCoin(k, c.value);
    }

    lemma {:induction false} VisibleBelow(k: OutPoint, c: Coin)
      requires Valid() && k !in cacheCoins && ReturnedBelow(k, Some(c), Below())
      ensures k in view ==> !IsSpent(c) && view[k] == c
    {
    }

    lemma {:induction false} NotVisible(k: OutPoint)
      requires Valid() && k !in cacheCoins && k !in Below()
      ensures k !in view
    {
    }

    /** Cache a coin of the base. */
    method CacheCoin(k: OutPoint, c: Coin) returns (found: CoinsCachePair)
      requires Valid() && k !in cacheCoins && ReturnedBelow(k, Some(c), Below())
      modifies this, own
      ensures Valid() && view == old(view) && Below() == old(Below()) && fresh(Repr - old(Repr))
      ensures entries == Fetched(old(entries), k, c) && k in cacheCoins && cacheCoins[k] == found
    {
      hide Valid, LayerOk, Visible, Total, Structure;
      Opened();
      ghost var es := entries;
      found := Insert(k, c);
      cachedCoinsUsage := cachedCoinsUsage + Usage(c);
      Repr := Repr + {found};
      if IsSpent(c) { Flag(k, found, false, true); }
      assert entries == Fetched(es, k, c);
      FetchKeeps(es, Below(), k, c);
      TotalUpdate(es, k, Entry(c, false, IsSpent(c)));
      Assemble();
    }

    /** The unspent coin at an outpoint. */
    method GetCoin(k: OutPoint) returns (c: Option<Coin>)
      requires Valid()
      modifies Repr
      ensures Valid() && view == old(view) && Below() == old(Below()) && fresh(Repr - old(Repr))
      ensures c == if k in view then Some(view[k]) else None
      decreases depth, 2
    {
      var it := FetchCoin(k);
      if it != null && !IsSpent(it.coin) { return Some(it.coin); }
      return None;
    }

    method HaveCoin(k: OutPoint) returns (have: bool)
      requires Valid()
      modifies Repr
      ensures Valid() && view == old(view) && Below() == old(Below()) && fresh(Repr - old(Repr))
      ensures have <==> k in view
    {
      var it := FetchCoin(k);
      have := it != null && !IsSpent(it.coin);
    }

    /** The cached coin, spent or not; the null coin if there is none. */
    method AccessCoin(k: OutPoint) returns (c: Coin)
      requires Valid()
      modifies Repr
      ensures Valid() && view == old(view) && Below() == old(Below()) && fresh(Repr - old(Repr))
      ensures if k in view then c == view[k] else IsSpent(c)
    {
      var it := FetchCoin(k);
      c := if it == null then NULL_COIN else it.coin;
    }

    /** Without asking the base: true only for coins that are both visible and cached. */
    method HaveCoinInCache(k: OutPoint) returns (have: bool)
      requires Valid()
      ensures have <==> k in cacheCoins && k in view
    {
      have := k in cacheCoins && !IsSpent(cacheCoins[k].coin);
    }

    // ---- Changing ----

    /** Add a coin. Not `ok` stands for the exception; it leaves the memory count short. The coin
        becomes visible; the cache stays valid if overwriting was allowed or nothing was there. */
    method AddCoin(k: OutPoint, coin: Coin, possibleOverwrite: bool) returns (ok: bool)
      requires Valid() && !IsSpent(coin)
      modifies this, own
      ensures fresh(Repr - old(Repr)) && Below() == old(Below())
      ensures ok <==> IsUnspendable(coin) || !OverwriteDetected(old(entries), k, possibleOverwrite)
      ensures IsUnspendable(coin) ==> Valid() && view == old(view) && entries == old(entries)
      ensures ok && !IsUnspendable(coin) ==>
              && view == old(view)[k := coin] && (possibleOverwrite || k !in old(view) <==> Valid())
              && entries == Added(old(entries), k, coin, possibleOverwrite) && cachedCoinsUsage == Total(entries)
      ensures !ok ==>
              Structure() && entries == old(entries) && view == old(view)
              && cachedCoinsUsage == Total(entries) - Usage(entries[k].coin)
    {
      hide Valid, LayerOk, Visible, Total, Structure, EntryOk;
      Opened();
      if IsUnspendable(coin) { return true; }
      ghost var es := entries;
      var it := Reserve(k);
      var makeFresh := false;
      if !possibleOverwrite {
        if !IsSpent(it.coin) { return false; }
        makeFresh := !it.isDirty;
      }
      ReplaceCoin(k, it, coin, makeFresh);
      AddedEntries(es, entries, k, coin, possibleOverwrite);
      AddKeeps(es, Below(), k, coin, possibleOverwrite);
      TotalUpdate(es, k, entries[k]);
      view := Visible(entries, Below());
      if possibleOverwrite || k !in old(view) { Assemble(); } else { NotTruthful(); }
      ok := true;
    }

    /** The entry of an outpoint, made now if there is none; its coin is no longer counted. */
    method Reserve(k: OutPoint) returns (it: CoinsCachePair)
      requires Structure() && Separate() && entries.Keys == cacheCoins.Keys
      modifies this`cacheCoins, this`entries, this`own, this`Repr, this`cachedCoinsUsage
      ensures Structure() && Separate() && k in cacheCoins && cacheCoins[k] == it && k in entries
      ensures it.Value() == entries[k]
      ensures entries == if k in old(entries) then old(entries) else old(entries)[k := Entry(NULL_COIN, false, false)]
      ensures cachedCoinsUsage == old(cachedCoinsUsage) - if k in old(entries) then Usage(old(entries)[k].coin) else 0
      ensures old(Repr) <= Repr && fresh(Repr - old(Repr)) && old(own) <= own && fresh(own - old(own))
    {
      hide Structure;
      if k !in cacheCoins {
        it := Insert(k, NULL_COIN);
        Repr := Repr + {it};
      } else {
        it := cacheCoins[k];
        EntryValue(k, it);
        cachedCoinsUsage := cachedCoinsUsage - Usage(it.coin);
      }
    }

    lemma {:induction false} NotTruthful()
      requires !LayerOk(entries, Below())
      ensures !Valid()
    {
    }

    method ReplaceCoin(k: OutPoint, it: CoinsCachePair, coin: Coin, makeFresh: bool)
      requires Structure() && k in cacheCoins && cacheCoins[k] == it
      modifies this`nodes, this`entries, this`cachedCoinsUsage, own
      ensures Structure() && cachedCoinsUsage == old(cachedCoinsUsage) + Usage(coin)
      ensures entries == old(entries)[k := Entry(coin, true, old(it.isFresh) || makeFresh)]
    {
      hide Structure;
      EntryValue(k, it);
      SetCoin(k, it, coin);
      Flag(k, it, true, makeFresh);
      cachedCoinsUsage := cachedCoinsUsage + Usage(coin);
    }

    lemma {:induction false} EntryValue(k: OutPoint, it: CoinsCachePair)
      requires Structure() && k in cacheCoins && cacheCoins[k] == it
      ensures k in entries && entries[k] == it.Value() && it in own
    {
    }

    /** Spend a coin. Afterwards it is not visible; `found` is also true for one cached as spent. */
    method SpendCoin(k: OutPoint) returns (found: bool, moveout: Coin)
      requires Valid()
      modifies Repr
      ensures Valid() && view == old(view) - {k} && Below() == old(Below()) && fresh(Repr - old(Repr))
      ensures k in old(view) ==> found && moveout == old(view)[k]
      ensures k !in old(view) ==> IsSpent(moveout)
      ensures k in old(entries) ==> found && entries == Spent(old(entries), k)
      ensures k !in old(entries) && k in old(view) ==> entries == old(entries)[k := Entry(NULL_COIN, true, false)]
      ensures !found ==> entries == old(entries)
    {
      hide LayerOk, Total, Structure, EntryOk;
      SameKeys();
      var it := FetchCoin(k);
      if it == null {
        SameKeys();
        return false, NULL_COIN;
      }
      EntryValue(k, it);
      moveout := SpendCached(k, it);
      found := true;
    }

    method SpendCached(k: OutPoint, it: CoinsCachePair) returns (moveout: Coin)
      requires Valid() && k in cacheCoins && cacheCoins[k] == it
      modifies this, own
      ensures Valid() && view == old(view) - {k} && Below() == old(Below()) && Repr == old(Repr)
      ensures moveout == old(it.coin) && k in old(entries) && entries == Spent(old(entries), k)
    {
      hide LayerOk, Visible, Total, Structure, EntryOk;
      ghost var es := entries;
      EntryValue(k, it);
      cachedCoinsUsage := cachedCoinsUsage - Usage(it.coin);
      moveout := it.coin;
      if it.isFresh {
        Erase(k, it);
        TotalRemove(es, k);
      } else {
        Flag(k, it, true, false);
        SetCoin(k, it, NULL_COIN);
        TotalUpdate(es, k, entries[k]);
      }
      assert entries == Spent(es, k);
      SpendKeeps(es, Below(), k);
      view := Visible(entries, Below());
    }

    /** Forget an entry that has no flags. */
    method Uncache(k: OutPoint)
      requires Valid()
      modifies this, own
      ensures Valid() && view == old(view) && Below() == old(Below()) && Repr == old(Repr)
      ensures entries == if k in old(entries) && !Flagged(old(entries)[k]) then old(entries) - {k} else old(entries)
    {
      hide LayerOk, Visible, Total, Structure, EntryOk;
      SameKeys();
      if k in cacheCoins {
        var it := cacheCoins[k];
        EntryValue(k, it);
        if !it.isDirty && !it.isFresh {
          ghost var es := entries;
          cachedCoinsUsage := cachedCoinsUsage - Usage(it.coin);
          Erase(k, it);
          TotalRemove(es, k);
          UncacheKeeps(es, Below(), k);
        }
      }
    }

    // ---- Writing to the base ----

    /** Take over one entry of a child. Not `ok` stands for the exception. */
    method WriteEntry(k: OutPoint, e: Entry) returns (ok: bool)
      requires Valid() && EntryOk(k, e, view)
      modifies this, own
      ensures ok && Valid() && view == Overlaid(old(view), k, e) && Below() == old(Below()) && fresh(Repr - old(Repr))
    {
      hide Valid, LayerOk, Visible, Total, Structure, EntryOk, Overlaid;
      Opened();
      WriteKeeps(entries, Below(), k, e);
      if e.isDirty {
        if k in cacheCoins {
          var itUs := cacheCoins[k];
          EntryValue(k, itUs);
          if e.isFresh && !IsSpent(itUs.coin) { return false; }
          WriteOver(k, e, itUs);
        } else {
          WriteNew(k, e);
        }
      } else {
        NotWritten(entries, k, e);
      }
      ok := true;
    }

    lemma {:induction false} Opened()
      requires Valid()
      ensures Structure() && entries.Keys == cacheCoins.Keys
      ensures Truthful(entries, Below(), view, cachedCoinsUsage) && Separate() && this in Repr
      ensures parent != null ==>
              parent in Repr && parent.Repr <= Repr && parent.depth < depth && parent.store == store && parent.Valid()
    {
    }

    method InsertDirty(k: OutPoint, c: Coin, isFresh: bool) returns (itUs: CoinsCachePair)
      requires Structure() && k !in cacheCoins
      modifies this`cacheCoins, this`nodes, this`entries, this`own, this`cachedCoinsUsage, own
      ensures Structure() && entries == old(entries)[k := Entry(c, true, isFresh)]
      ensures cachedCoinsUsage == old(cachedCoinsUsage) + Usage(c)
      ensures fresh(itUs) && own == old(own) + {itUs}
    {
      hide Structure;
      itUs := Insert(k, c);
      cachedCoinsUsage := cachedCoinsUsage + Usage(c);
      Flag(k, itUs, true, isFresh);
    }

    method WriteNew(k: OutPoint, e: Entry)
      requires Valid() && k !in cacheCoins && e.isDirty && LayerOk(Written(entries, k, e), Below())
      modifies this, own
      ensures Valid() && view == Visible(Written(old(entries), k, e), Below()) && Below() == old(Below())
      ensures fresh(Repr - old(Repr))
    {
      hide Valid, LayerOk, Visible, Total, Structure;
      Opened();
      ghost var es := entries;
      if !(e.isFresh && IsSpent(e.coin)) {
        var itUs := InsertDirty(k, e.coin, e.isFresh);
        Repr := Repr + {itUs};
        TotalUpdate(es, k, entries[k]);
      }
      assert entries == Written(es, k, e);
      view := Visible(entries, Below());
      Assemble();
    }

    method WriteOver(k: OutPoint, e: Entry, itUs: CoinsCachePair)
      requires Valid() && k in cacheCoins && cacheCoins[k] == itUs && e.isDirty
      requires LayerOk(Written(entries, k, e), Below())
      modifies this, own
      ensures Valid() && view == Visible(Written(old(entries), k, e), Below()) && Below() == old(Below())
      ensures fresh(Repr - old(Repr))
    {
      hide Valid, LayerOk, Visible, Total, Structure, Written;
      Opened();
      ghost var es := entries;
      Overwrite(k, e, itUs);
      WrittenTotal(es, k, e);
      view := Visible(entries, Below());
      Assemble();
    }

    /** Replace the entry, or erase it when the base does not know the coin. */
    method Overwrite(k: OutPoint, e: Entry, itUs: CoinsCachePair)
      requires Structure() && k in entries && k in cacheCoins && cacheCoins[k] == itUs && e.isDirty
      modifies this`cacheCoins, this`nodes, this`entries, this`cachedCoinsUsage, own
      ensures Structure() && entries == Written(old(entries), k, e)
      ensures cachedCoinsUsage == old(cachedCoinsUsage) - Usage(old(entries)[k].coin)
                                  + if k in entries then Usage(e.coin) else 0
    {
      hide Structure;
      EntryValue(k, itUs);
      cachedCoinsUsage := cachedCoinsUsage - Usage(itUs.coin);
      if itUs.isFresh && IsSpent(e.coin) {
        Erase(k, itUs);
      } else {
        SetCoin(k, itUs, e.coin);
        cachedCoinsUsage := cachedCoinsUsage + Usage(e.coin);
        Flag(k, itUs, true, false);
      }
    }

    /** Hand one entry to the base. */
    method WriteBelow(k: OutPoint, e: Entry)
      requires this in Repr && ParentValid() && Separate() && EntryOk(k, e, Below())
      modifies this`Repr, Repr - {this} - own, store
      ensures this in Repr && ParentValid() && Separate() && Below() == Overlaid(old(Below()), k, e)
      ensures fresh(Repr - old(Repr))
    {
      hide Structure, Truthful, Overlaid, EntryOk;
      if parent == null {
        StoreKeeps(store.coins, k, e);
        store.coins := StoreWritten(store.coins, k, e);
      } else {
        var ok := parent.WriteEntry(k, e);
        Repr := Repr + parent.Repr;
      }
    }

    lemma {:induction false} ListKeysFlagged()
      requires Structure()
      ensures |nodes| > 0 && FlaggedKeys(entries, KeysOf(nodes[1..]))
    {
      var ks := KeysOf(nodes[1..]);
      forall i, j | 0 <= i < j < |ks| ensures ks[i] != ks[j] {
        assert nodes[1..][i] == nodes[i + 1] && nodes[1..][j] == nodes[j + 1];
        assert nodes[i + 1] in nodes && nodes[j + 1] in nodes;
      }
      forall k ensures k in ks <==> k in entries && Flagged(entries[k]) {
        if k in ks {
          var i :| 0 <= i < |ks| && ks[i] == k;
          assert nodes[1..][i] == nodes[i + 1] && nodes[i + 1] in nodes;
          assert PairOk(k);
        }
        if k in entries && Flagged(entries[k]) {
          assert PairOk(k);
          var i :| 0 <= i < |nodes| && nodes[i] == cacheCoins[k];
          assert nodes[1..][i - 1] == nodes[i];
          assert ks[i - 1] == k;
        }
      }
    }

    /** The cursor: where the iteration over the list stands after `n` of the `all` nodes. */
    ghost predicate At(all: seq<CoinsCachePair>, n: nat, willErase: bool, it: CoinsCachePair)
      reads this`nodes
    {
      && 0 < |all| && n < |all| && all[0] == sentinel && nodes == (if willErase then all else [sentinel] + all[n + 1..])
      && it == if n + 1 < |all| then all[n + 1] else sentinel
    }

    /** Step the cursor, cleaning up the entry it leaves unless everything will be wiped. */
    method NextAndMaybeErase(current: CoinsCachePair, willErase: bool, ghost all: seq<CoinsCachePair>, ghost n: nat)
        returns (next: CoinsCachePair)
      requires Structure() && At(all, n, willErase, current) && current != sentinel && AllDifferent(all)
      modifies this`nodes, this`entries, this`cacheCoins, this`cachedCoinsUsage, own
      ensures Structure() && At(all, n + 1, willErase, next)
      ensures current.key in old(entries) && old(entries)[current.key].coin == old(current.coin)
      ensures entries == if willErase then old(entries)
              else if IsSpent(old(current.coin)) then old(entries) - {current.key}
                         else old(entries)[current.key := Entry(old(current.coin), false, false)]
      ensures cachedCoinsUsage == if willErase
              || !IsSpent(old(current.coin)) then old(cachedCoinsUsage)
              else old(cachedCoinsUsage) - Usage(old(current.coin))
    {
      hide Structure, Unlinks;
      var k := current.key;
      NodeFacts(all, n, willErase, current);
      next := current.next;
      if !willErase {
        ghost var before := nodes;
        if IsSpent(current.coin) {
          cachedCoinsUsage := cachedCoinsUsage - Usage(current.coin);
          Erase(k, current);
        } else {
          Clean(k, current);
        }
        Stepped(before, current, all, n);
      }
    }

    lemma {:induction false} NodeFacts(all: seq<CoinsCachePair>, n: nat, willErase: bool, it: CoinsCachePair)
      requires Structure() && At(all, n, willErase, it) && it != sentinel
      ensures it in own && it.key in cacheCoins && cacheCoins[it.key] == it && it.HasFlags()
      ensures it.key in entries && entries[it.key] == it.Value()
      ensures it.next != null && it.next == if n + 2 < |all| then all[n + 2] else sentinel
    {
      var i := if willErase then n + 1 else 1;
      assert nodes[i] == it;
      assert LinkedAt(nodes, i);
      assert PairOk(it.key);
    }

    lemma {:induction false} Stepped(before: seq<CoinsCachePair>, current: CoinsCachePair, all: seq<CoinsCachePair>,
        n: nat)
      requires Unlinks(before, current, true) && n + 1 < |all| && before == [sentinel] + all[n + 1..]
      requires all[n + 1] == current && AllDifferent(all)
      ensures nodes == [sentinel] + all[n + 2..]
    {
      var at :| 0 < at < |before| && before[at] == current && nodes == Without(before, at);
      assert before[1] == all[n + 1] && before[at] == all[n + at];
      assert at == 1;
      assert before[2..] == all[n + 2..];
    }

    /** What holds while the flagged entries are written: the first `n` are visible in the base. */
    ghost predicate Writing(all: seq<CoinsCachePair>, es: Entries, below: Coins, n: nat, willErase: bool,
        it: CoinsCachePair)
      reads this, Repr, store, own
    {
      && this in Repr && ParentValid() && Separate() && Structure() && At(all, n, willErase, it) && AllDifferent(all)
      && FlaggedKeys(es, KeysOf(all[1..])) && LayerOk(es, below)
      && WrittenUpTo(Below(), below, es, KeysOf(all[1..]), n)
      && entries == CleanedUpTo(es, KeysOf(all[1..]), n, willErase)
      && (!willErase ==> cachedCoinsUsage == Total(entries))
    }

    /** Write one flagged entry and step the cursor. */
    method WriteNext(ghost all: seq<CoinsCachePair>, ghost es: Entries, ghost below: Coins, ghost n: nat,
        willErase: bool, it: CoinsCachePair)
      returns (next: CoinsCachePair)
      requires Writing(all, es, below, n, willErase, it) && it != sentinel
      modifies Repr, store
      ensures Writing(all, es, below, n + 1, willErase, next)
      ensures fresh(Repr - old(Repr)) && view == old(view) && hashBlock == old(hashBlock) && n + 1 < |all|
    {
      hide Valid, Structure, FlaggedKeys, LayerOk, WrittenUpTo, CleanedUpTo, EntryOk, Overlaid, Total, AllDifferent;
      ghost var ks := KeysOf(all[1..]);
      NodeFacts(all, n, willErase, it);
      NextKey(all, n, it, ks);
      NextStillOk(Below(), below, es, ks, n);
      WrittenStep(Below(), below, es, ks, n);
      CleanedStep(es, ks, n, willErase);
      var e := it.Value();
      WriteBelow(it.key, e);
      TotalRemove(entries, it.key);
      TotalUpdate(entries, it.key, Entry(it.coin, false, false));
      next := NextAndMaybeErase(it, willErase, all, n);
    }

    lemma {:induction false} NextKey(all: seq<CoinsCachePair>, n: nat, it: CoinsCachePair, ks: seq<OutPoint>)
      requires 0 < |all| && n + 1 < |all| && it == all[n + 1] && ks == KeysOf(all[1..])
      ensures n < |ks| && ks[n] == it.key
    {
    }

    /** Write all flagged entries to the base (the base's BatchWrite). */
    method BatchWrite(willErase: bool)
      requires Valid()
      modifies Repr, store
      ensures this in Repr && ParentValid() && Separate() && Structure() && fresh(Repr - old(Repr))
      ensures Below() == old(view) && view == old(view) && hashBlock == old(hashBlock)
      ensures (parent != null ==> parent.hashBlock == hashBlock)
      ensures !willErase ==>
              entries == Synced(old(entries)) && cachedCoinsUsage == Total(entries) && nodes == [sentinel]
    {
      hide *;
      ghost var all, es, below := nodes, entries, Below();
      var it := StartWriting(willErase);
      ghost var n := 0;
      while it != sentinel
        invariant n < |all| && Writing(all, es, below, n, willErase, it) && fresh(Repr - old(Repr))
        invariant view == old(view) && hashBlock == old(hashBlock)
        decreases |all| - n
      {
        it := WriteNext(all, es, below, n, willErase, it);
        n := n + 1;
      }
      DoneWriting(all, es, below, n, willErase, it);
      PropagateBest();
    }

    method StartWriting(willErase: bool) returns (it: CoinsCachePair)
      requires Valid()
      ensures |nodes| > 0 && Writing(nodes, entries, Below(), 0, willErase, it)
      ensures view == Visible(entries, Below()) && this in Repr
    {
      hide ParentValid, LayerOk, Total, Visible, FlaggedKeys;
      ListKeysFlagged();
      NoneCleaned(entries, KeysOf(nodes[1..]), willErase);
      assert [sentinel] + nodes[1..] == nodes;
      assert LinkedAt(nodes, 0);
      it := sentinel.next;
    }

    lemma {:induction false} DoneWriting(all: seq<CoinsCachePair>, es: Entries, below: Coins, n: nat, willErase: bool,
        it: CoinsCachePair)
      requires Writing(all, es, below, n, willErase, it) && it == sentinel
      ensures this in Repr && ParentValid() && Separate() && Structure() && Below() == Visible(es, below)
      ensures !willErase ==> entries == Synced(es) && cachedCoinsUsage == Total(entries) && nodes == [sentinel]
    {
      hide ParentValid, Separate, LayerOk, Total, Visible, FlaggedKeys, WrittenUpTo, CleanedUpTo, Structure;
      var ks := KeysOf(all[1..]);
      LastNode(all, n, it);
      assert n == |ks|;
      WrittenAll(Below(), below, es, ks);
      if !willErase { AllCleaned(es, ks); }
    }

    lemma {:induction false} LastNode(all: seq<CoinsCachePair>, n: nat, it: CoinsCachePair)
      requires AllDifferent(all) && n < |all| && it == all[0] && it == if n + 1 < |all| then all[n + 1] else all[0]
      ensures n + 1 == |all|
    {
    }

    /** The base takes over the best block. */
    method PropagateBest()
      requires this in Repr && ParentValid() && Separate() && Structure()
      modifies Repr
      ensures this in Repr && ParentValid() && Separate() && Structure() && Below() == old(Below()) && Repr == old(Repr)
      ensures nodes == old(nodes) && entries == old(entries) && cachedCoinsUsage == old(cachedCoinsUsage)
      ensures view == old(view) && hashBlock == old(hashBlock)
      ensures parent != null ==> parent.hashBlock == hashBlock
    {
      hide Structure, Truthful;
      if parent != null { parent.SetBestBlock(hashBlock); }
    }

    method SetBestBlock(h: nat)
      requires Valid()
      modifies this`hashBlock
      ensures Valid() && hashBlock == h
    {
      hide Structure, Truthful;
      hashBlock := h;
    }

    /** Empty the map; the destructors unlink the entries. */
    method ClearCache()
      requires Structure()
      modifies this`nodes, this`entries, this`cacheCoins, own
      ensures Structure() && cacheCoins == map[] && entries == map[]
    {
      hide Structure, Unlinks;
      FirstNode();
      while sentinel.next != sentinel
        invariant Structure() && own == old(own) && sentinel in own && |nodes| > 0
        decreases |nodes|
      {
        FirstNode();
        var pair: CoinsCachePair := sentinel.next;
        ghost var before := nodes;
        Erase(pair.key, pair);
        Shorter(before, pair);
        FirstNode();
      }
      FirstNode();
      cacheCoins, entries := map[], map[];
      OnlySentinel();
    }

    lemma {:induction false} FirstNode()
      requires Structure()
      ensures |nodes| > 0 && sentinel in own && sentinel.next != null && (sentinel.next == sentinel <==> |nodes| == 1)
      ensures Ring(nodes) && nodes[0] == sentinel
      ensures sentinel.next != sentinel ==>
              sentinel.next.key in cacheCoins && cacheCoins[sentinel.next.key] == sentinel.next && sentinel.next in own
              && sentinel.next.HasFlags()
    {
      assert LinkedAt(nodes, 0);
      if |nodes| > 1 {
        assert nodes[1] in nodes;
        assert PairOk(nodes[1].key);
      }
    }

    lemma {:induction false} Shorter(before: seq<CoinsCachePair>, pair: CoinsCachePair)
      requires Unlinks(before, pair, true)
      ensures |nodes| < |before|
    {
    }

    lemma {:induction false} OnlySentinel()
      requires Ring(nodes) && nodes[0] == sentinel && |nodes| == 1 && sentinel in own && cacheCoins == map[]
      requires entries == map[]
      ensures Structure()
    {
    }

    /** Write everything to the base and forget it here. The base shows what this view showed. */
    method Flush()
      requires Valid()
      modifies Repr, store
      ensures Valid() && view == old(view) && Below() == old(view) && cacheCoins == map[]
      ensures cachedCoinsUsage == 0 && fresh(Repr - old(Repr))
      ensures hashBlock == old(hashBlock) && (parent != null ==> parent.hashBlock == hashBlock)
    {
      hide *;
      Basics();
      BatchWrite(true);
      InRepr();
      Wipe();
      EmptyLayer(Below());
      AssembleFrom();
    }

    lemma {:induction false} InRepr()
      requires Separate()
      ensures own <= Repr
    {
    }

    method Wipe()
      requires this in Repr && ParentValid() && Separate() && Structure()
      modifies this, own
      ensures this in Repr && ParentValid() && Separate() && Structure() && Below() == old(Below())
      ensures view == old(view) && Repr == old(Repr)
      ensures cacheCoins == map[] && entries == map[] && cachedCoinsUsage == 0 && hashBlock == old(hashBlock)
      ensures parent != null ==> parent.hashBlock == old(parent.hashBlock)
    {
      hide Valid, Structure;
      ClearCache();
      cachedCoinsUsage := 0;
    }

    lemma {:induction false} AssembleFrom()
      requires this in Repr && ParentValid() && Separate() && Structure()
      requires LayerOk(entries, Below()) && view == Visible(entries, Below()) && cachedCoinsUsage == Total(entries)
      ensures Valid()
    {
    }

    /** Write everything to the base and keep the unspent coins here. Not `ok` stands for the
        exception. */
    method Sync() returns (ok: bool)
      requires Valid()
      modifies Repr, store
      ensures ok && Valid() && view == old(view) && Below() == old(view) && fresh(Repr - old(Repr))
      ensures entries == Synced(old(entries)) && hashBlock == old(hashBlock)
      ensures (parent != null ==> parent.hashBlock == hashBlock)
    {
      hide *;
      ghost var es, below := entries, Below();
      LayerFacts();
      BatchWrite(false);
      FirstNode();
      if sentinel.next != sentinel { return false; }
      SyncKeeps(es, below);
      AssembleFrom();
      ok := true;
    }

    lemma {:induction false} LayerFacts()
      requires Valid()
      ensures LayerOk(entries, Below()) && view == Visible(entries, Below())
    {
    }

    // ---- The cache's own consistency check ----

    /** Recount flags and memory, and walk the list. Every assertion of the check holds. */
    method SanityCheck() returns (ok: bool)
      requires Valid()
      ensures ok
    {
      hide Structure, ParentValid, Separate, Visible;
      Opened();
      ok := true;
      var recomputed, countFlagged := 0, 0;
      var rest := cacheCoins.Keys;
      ghost var seen: Entries := map[];
      while rest != {}
        invariant ok && rest <= cacheCoins.Keys && seen == entries - rest
        invariant recomputed == Total(seen) && countFlagged == |FlaggedSet(seen)|
        decreases |rest|
      {
        var k :| k in rest;
        var p := cacheCoins[k];
        EntryValue(k, p);
        Recounted(entries, rest, k);
        ok := ok && StateOk(p.Value());
        recomputed := recomputed + Usage(p.coin);
        if p.isDirty || p.isFresh { countFlagged := countFlagged + 1; }
        rest := rest - {k};
        seen := entries - rest;
      }
      assert seen == entries;
      var linked, countLinked := WalkList();
      FlaggedCount();
      ok := ok && linked && countLinked == countFlagged && recomputed == cachedCoinsUsage;
    }

    /** Walk the list: links agree in both directions and every entry has flags. */
    method WalkList() returns (ok: bool, count: nat)
      requires Structure()
      ensures ok && count + 1 == |nodes|
    {
      ok, count := true, 0;
      assert LinkedAt(nodes, 0);
      var it := sentinel.next;
      while it != sentinel
        invariant ok && count < |nodes| && it == Successor(nodes, count)
        decreases |nodes| - count
      {
        var i := count + 1;
        assert i < |nodes| && it == nodes[i];
        assert LinkedAt(nodes, i) && LinkedAt(nodes, i - 1);
        assert i + 1 < |nodes| ==> LinkedAt(nodes, i + 1);
        assert it in nodes && PairOk(it.key);
        ok := ok && it.next.prev == it && it.prev.next == it && it.HasFlags();
        it := it.next;
        count := count + 1;
      }
    }

    lemma {:induction false} FlaggedCount()
      requires Structure()
      ensures |FlaggedSet(entries)| + 1 == |nodes|
    {
      hide Structure;
      ListKeysFlagged();
      var ks := KeysOf(nodes[1..]);
      assert FlaggedSet(entries) == set k | k in ks;
      DistinctKeys(ks);
    }
  }

  lemma {:induction false} DistinctKeys(ks: seq<OutPoint>)
    requires forall i, j :: 0 <= i < j < |ks| ==> ks[i] != ks[j]
    ensures |set k | k in ks| == |ks|
  {
    if ks != [] {
      DistinctKeys(ks[1..]);
      assert ks == [ks[0]] + ks[1..];
      assert (set k | k in ks) == {ks[0]} + set k | k in ks[1..];
    }
  }

  ghost function FlaggedSet(es: Entries): set<OutPoint> {
    set k | k in es && Flagged(es[k])
  }

  lemma {:induction false} Recounted(es: Entries, rest: set<OutPoint>, k: OutPoint)
    requires rest <= es.Keys && k in rest
    ensures Total(es - (rest - {k})) == Total(es - rest) + Usage(es[k].coin)
    ensures |FlaggedSet(es - (rest - {k}))| == |FlaggedSet(es - rest)| + if Flagged(es[k]) then 1 else 0
  {
    var m, m' := es - rest, es - (rest - {k});
    assert m' - {k} == m;
    TotalRemove(m', k);
    if Flagged(es[k]) {
      assert FlaggedSet(m') == FlaggedSet(m) + {k};
    } else {
      assert FlaggedSet(m') == FlaggedSet(m);
    }
  }

  // ---- Whole runs ----

  datatype Op = Get(k: OutPoint) | Add(k: OutPoint, coin: Coin, overwrite: bool) | Spend(k: OutPoint)
      | Uncache(k: OutPoint) | Flush | Sync

  /** What an operation does to a plain map of coins. */
  function Meaning(cs: Coins, op: Op): Coins {
    match op
    case Add(k, coin, _) => if IsUnspendable(coin) then cs else cs[k := coin]
    case Spend(k) => cs - {k}
    case _ => cs
  }

  /** The caller's side: no spent coins are added, and none is overwritten without saying so. */
  predicate Allowed(cs: Coins, op: Op) {
    op.Add? ==> !IsSpent(op.coin) && (op.overwrite || IsUnspendable(op.coin) || op.k !in cs)
  }

  function Meanings(cs: Coins, ops: seq<Op>): Coins {
    if ops == [] then cs else Meaning(Meanings(cs, ops[..|ops| - 1]), ops[|ops| - 1])
  }

  predicate AllAllowed(cs: Coins, ops: seq<Op>) {
    forall i {:trigger ops[i]} :: 0 <= i < |ops| ==> Allowed(Meanings(cs, ops[..i]), ops[i])
  }

  /** Any run of allowed operations on the top of any stack acts as on a plain map. */
  method Run(cache: CoinsViewCache, ops: seq<Op>) returns (answers: seq<Option<Coin>>)
    requires cache.Valid() && AllAllowed(cache.view, ops)
    modifies cache.Repr, cache.store
    ensures cache.Valid() && cache.view == Meanings(old(cache.view), ops) && fresh(cache.Repr - old(cache.Repr))
    ensures |answers| == |ops| && forall i {:trigger answers[i]} :: 0 <= i < |ops| && ops[i].Get? ==>
              var cs := Meanings(old(cache.view), ops[..i]);
                  answers[i] == if ops[i].k in cs then Some(cs[ops[i].k]) else None
  {
    hide *;
    ghost var start := cache.view;
    answers := [];
    NoOps(start, ops);
    for i := 0 to |ops|
      invariant cache.Valid() && cache.view == Meanings(start, ops[..i]) && fresh(cache.Repr - old(cache.Repr))
      invariant Answered(start, ops, i, answers)
    {
      RunAllowed(start, ops, i);
      ghost var before := cache.view;
      var answer := Step(cache, ops[i]);
      RunStep(start, ops, i, answers, answer, before);
      answers := answers + [answer];
    }
    assert ops[..|ops|] == ops;
    RunDone(start, ops, answers);
  }

  ghost predicate Answered(start: Coins, ops: seq<Op>, n: nat, answers: seq<Option<Coin>>) {
    n <= |ops| && |answers| == n && forall i {:trigger answers[i]} :: 0 <= i < n && ops[i].Get? ==>
      var cs := Meanings(start, ops[..i]); answers[i] == if ops[i].k in cs then Some(cs[ops[i].k]) else None
  }

  lemma {:induction false} NoOps(start: Coins, ops: seq<Op>)
    ensures Meanings(start, ops[..0]) == start && Answered(start, ops, 0, [])
  {
  }

  lemma {:induction false} RunAllowed(start: Coins, ops: seq<Op>, i: nat)
    requires AllAllowed(start, ops) && i < |ops|
    ensures Allowed(Meanings(start, ops[..i]), ops[i])
  {
  }

  lemma {:induction false} RunStep(start: Coins, ops: seq<Op>, i: nat, answers: seq<Option<Coin>>,
      answer: Option<Coin>, cs: Coins)
    requires i < |ops| && Answered(start, ops, i, answers) && cs == Meanings(start, ops[..i])
    requires ops[i].Get? ==> answer == if ops[i].k in cs then Some(cs[ops[i].k]) else None
    ensures Answered(start, ops, i + 1, answers + [answer]) && Meanings(start, ops[..i + 1]) == Meaning(cs, ops[i])
  {
    assert ops[..i + 1][..i] == ops[..i];
  }

  lemma {:induction false} RunDone(start: Coins, ops: seq<Op>, answers: seq<Option<Coin>>)
    requires Answered(start, ops, |ops|, answers)
    ensures |answers| == |ops| && forall i {:trigger answers[i]} :: 0 <= i < |ops| && ops[i].Get? ==>
              var cs := Meanings(start, ops[..i]); answers[i] == if ops[i].k in cs then Some(cs[ops[i].k]) else None
  {
  }

  lemma {:induction false} NotDetected(cache: CoinsViewCache, k: OutPoint, overwrite: bool)
    requires cache.Valid()
    ensures overwrite || k !in cache.view ==> !OverwriteDetected(cache.entries, k, overwrite)
  {
  }

  method Step(cache: CoinsViewCache, op: Op) returns (answer: Option<Coin>)
    requires cache.Valid() && Allowed(cache.view, op)
    modifies cache.Repr, cache.store
    ensures cache.Valid() && cache.view == Meaning(old(cache.view), op) && fresh(cache.Repr - old(cache.Repr))
    ensures op.Get? ==> answer == if op.k in old(cache.view) then Some(old(cache.view)[op.k]) else None
  {
    hide Truthful;
    answer := None;
    if op.Add? { NotDetected(cache, op.k, op.overwrite); }
    match op
    case Get(k) => answer := cache.GetCoin(k);
    case Add(k, coin, overwrite) => var ok := cache.AddCoin(k, coin, overwrite);
    case Spend(k) => var found, moved := cache.SpendCoin(k);
    case Uncache(k) => cache.Uncache(k);
    case Flush => cache.Flush();
    case Sync => var ok := cache.Sync();
  }

  ghost predicate AllDifferent(all: seq<CoinsCachePair>) {
    forall i, j :: 0 <= i < j < |all| ==> all[i] != all[j]
  }

  ghost function KeysOf(nodes: seq<CoinsCachePair>): seq<OutPoint> {
    seq(|nodes|, i requires 0 <= i < |nodes| => nodes[i].key)
  }

  lemma {:induction false} WrittenTotal(es: Entries, k: OutPoint, e: Entry)
    requires k in es && e.isDirty
    ensures Total(Written(es, k, e)) == Total(es) - Usage(es[k].coin) + if k in Written(es, k, e) then Usage(e.coin)
            else 0
  {
    hide Total;
    if es[k].isFresh && IsSpent(e.coin) {
      TotalRemove(es, k);
    } else {
      TotalUpdate(es, k, Entry(e.coin, true, es[k].isFresh));
    }
  }

  lemma {:induction false} AddedEntries(es: Entries, es': Entries, k: OutPoint, c: Coin, overwrite: bool)
    requires k in es' && es' == es[k := es'[k]] && es'[k].coin == c && es'[k].isDirty
    requires es'[k].isFresh == ((k in es && es[k].isFresh) || (!overwrite && !(k in es && es[k].isDirty)))
    ensures es' == Added(es, k, c, overwrite)
  {
  }
}
