/** The circular doubly linked list of flagged cache entries (src/coins.h, CCoinsCacheEntry). */
module CoinsLists {
  import opened CoinsTheory

  class CoinsCachePair {
    const key: OutPoint
    var coin: Coin
    var isDirty: bool
    var isFresh: bool
    var prev: CoinsCachePair?
    var next: CoinsCachePair?

    constructor (key: OutPoint, coin: Coin)
      ensures this.key == key && this.coin == coin && !isDirty && !isFresh && prev == null && next == null
    {
      this.key, this.coin := key, coin;
      isDirty, isFresh := false, false;
      prev, next := null, null;
    }

    /** The sentinel of a new list: linked to itself, and flagged so that it has a successor. */
    constructor Sentinel()
      ensures isDirty && !isFresh && Ring([this])
    {
      key, coin := OutPoint(0, 0), NULL_COIN;
      isDirty, isFresh := true, false;
      prev, next := this, this;
    }

    predicate HasFlags()
      reads this
    {
      isDirty || isFresh
    }

    function Value(): Entry
      reads this
    {
      Entry(coin, isDirty, isFresh)
    }

    ghost predicate Unlinked()
      reads this
    {
      prev == null && next == null
    }
  }

  ghost function Successor(nodes: seq<CoinsCachePair>, i: nat): CoinsCachePair
    requires i < |nodes|
  {
    if i + 1 < |nodes| then nodes[i + 1] else nodes[0]
  }

  ghost function Predecessor(nodes: seq<CoinsCachePair>, i: nat): CoinsCachePair
    requires i < |nodes|
  {
    if i > 0 then nodes[i - 1] else nodes[|nodes| - 1]
  }

  ghost predicate LinkedAt(nodes: seq<CoinsCachePair>, i: nat)
    requires i < |nodes|
    reads nodes`prev, nodes`next
  {
    nodes[i].next == Successor(nodes, i) && nodes[i].prev == Predecessor(nodes, i)
  }

  /** The nodes form a ring, in this order; the sentinel comes first. */
  ghost predicate Ring(nodes: seq<CoinsCachePair>)
    reads nodes`prev, nodes`next
  {
    && |nodes| > 0
    && (forall i, j :: 0 <= i < j < |nodes| ==> nodes[i] != nodes[j])
    && (forall i {:trigger LinkedAt(nodes, i)} :: 0 <= i < |nodes| ==> LinkedAt(nodes, i))
  }

  /** Set flags; an entry that had none is linked in before the sentinel. */
  method AddFlags(dirty: bool, isFresh: bool, pair: CoinsCachePair, sentinel: CoinsCachePair,
      ghost nodes: seq<CoinsCachePair>)
    returns (ghost nodes': seq<CoinsCachePair>)
    requires dirty || isFresh
    requires Ring(nodes) && nodes[0] == sentinel && pair != sentinel && (pair in nodes <==> pair.HasFlags())
    requires (!pair.HasFlags() ==> pair.Unlinked())
    modifies nodes`prev, nodes`next, pair`prev, pair`next, pair`isDirty, pair`isFresh
    ensures nodes' == if old(pair.HasFlags()) then nodes else nodes + [pair]
    ensures Ring(nodes')
    ensures pair.isDirty == (old(pair.isDirty) || dirty) && pair.isFresh == (old(pair.isFresh) || isFresh)
  {
    nodes' := nodes;
    if !pair.HasFlags() {
      nodes' := nodes + [pair];
      ghost var n := |nodes|;
      assert LinkedAt(nodes, 0) && LinkedAt(nodes, n - 1);
      pair.prev := sentinel.prev;
      pair.next := sentinel;
      sentinel.prev := pair;
      pair.prev.next := pair;
      forall i | 0 <= i <= n ensures LinkedAt(nodes', i) {
        assert i < n ==> old(LinkedAt(nodes, i));
      }
    }
    label linked:
    pair.isDirty := pair.isDirty || dirty;
    pair.isFresh := pair.isFresh || isFresh;
    forall i | 0 <= i < |nodes'| ensures LinkedAt(nodes', i) {
      assert old@linked(LinkedAt(nodes', i));
    }
  }

  ghost function Without(nodes: seq<CoinsCachePair>, i: nat): seq<CoinsCachePair>
    requires i < |nodes|
  {
    nodes[..i] + nodes[i + 1..]
  }

  lemma {:induction false} WithoutMembers(nodes: seq<CoinsCachePair>, i: nat)
    requires Ring(nodes) && 0 < i < |nodes|
    ensures Without(nodes, i)[0] == nodes[0] && forall n :: n in Without(nodes, i) <==> n in nodes && n != nodes[i]
  {
    assert nodes == nodes[..i] + [nodes[i]] + nodes[i + 1..];
    assert Without(nodes, i)[0] == nodes[0];
    forall n | n in nodes && n != nodes[i] ensures n in Without(nodes, i) {}
  }

  /** Clear the flags and unlink. */
  method SetClean(pair: CoinsCachePair, ghost nodes: seq<CoinsCachePair>, ghost at: nat)
    requires Ring(nodes) && (pair.HasFlags() ==> 0 < at < |nodes| && nodes[at] == pair)
    requires (!pair.HasFlags() ==> pair !in nodes && pair.Unlinked())
    modifies nodes`prev, nodes`next, pair`prev, pair`next, pair`isDirty, pair`isFresh
    ensures Ring(if old(pair.HasFlags()) then Without(nodes, at) else nodes)
    ensures !pair.HasFlags() && pair.Unlinked()
  {
    if !pair.HasFlags() { return; }
    ghost var nodes' := Without(nodes, at);
    assert LinkedAt(nodes, at);
    assert at > 0 ==> LinkedAt(nodes, at - 1);
    pair.next.prev := pair.prev;
    pair.prev.next := pair.next;
    pair.isDirty, pair.isFresh := false, false;
    pair.prev, pair.next := null, null;
    forall i | 0 <= i < |nodes'| ensures LinkedAt(nodes', i) {
      assert old(LinkedAt(nodes, if i < at then i else i + 1));
    }
  }
}
