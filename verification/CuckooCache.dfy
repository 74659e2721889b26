/** The cuckoo cache (src/cuckoocache.h). */
module CuckooCaches {

  // ---- Bit-packed flags ----

  function Mask(k: nat): bv8
    requires k < 8
  {
    match k
    case 0 => 1 case 1 => 2 case 2 => 4 case 3 => 8 case 4 => 16 case 5 => 32 case 6 => 64 case _ => 128
  }

  predicate Test(m: bv8, k: nat)
    requires k < 8
  {
    m & Mask(k) != 0
  }

  function Raised(m: bv8, k: nat): bv8
    requires k < 8
  {
    m | Mask(k)
  }

  function Lowered(m: bv8, k: nat): bv8
    requires k < 8
  {
    m & !Mask(k)
  }

  lemma {:induction false} MaskBits(m: bv8, j: nat, k: nat)
    requires j < 8 && k < 8
    ensures Test(Raised(m, k), j) <==> j == k || Test(m, j)
    ensures Test(Lowered(m, k), j) <==> j != k && Test(m, j)
    ensures Test(0xFF, k)
  {
  }

  /** One bit for each of `size` entries, eight to a byte; all set at first. */
  class BitPackedFlags {
    var mem: seq<bv8>

    /** The flags as a function of the index. */
    predicate IsSet(s: nat)
      requires s < 8 * |mem|
      reads this
    {
      Test(mem[s / 8], s % 8)
    }

    /** Sizes are 32 bits wide: rounding up to whole bytes wraps for the seven largest, which get no
        flags at all. */
    constructor (size: nat)
      requires size < 0x1_0000_0000
      ensures forall s :: 0 <= s < 8 * |mem| ==> IsSet(s)
      ensures 8 * |mem| >= size <==> size + 7 < 0x1_0000_0000
    {
      mem := seq((size + 7) % 0x1_0000_0000 / 8, _ => 0xFF);
      new;
      forall s | 0 <= s < 8 * |mem| ensures IsSet(s) {
        MaskBits(0, 0, s % 8);
      }
    }

    method BitSet(s: nat)
      requires s < 8 * |mem|
      modifies this
      ensures |mem| == old(|mem|) && forall r: nat :: r < 8 * |mem| ==> (IsSet(r) <==> r == s || old(IsSet(r)))
    {
      hide Test, Raised, Lowered;
      ghost var before := mem;
      mem := mem[s / 8 := Raised(mem[s / 8], s % 8)];
      forall r: nat | r < 8 * |mem| ensures IsSet(r) <==> r == s || old(IsSet(r)) {
        MaskBits(before[s / 8], r % 8, s % 8);
      }
    }

    method BitUnset(s: nat)
      requires s < 8 * |mem|
      modifies this
      ensures |mem| == old(|mem|) && forall r: nat :: r < 8 * |mem| ==> (IsSet(r) <==> r != s && old(IsSet(r)))
    {
      hide Test, Raised, Lowered;
      ghost var before := mem;
      mem := mem[s / 8 := Lowered(mem[s / 8], s % 8)];
      forall r: nat | r < 8 * |mem| ensures IsSet(r) <==> r != s && old(IsSet(r)) {
        MaskBits(before[s / 8], r % 8, s % 8);
      }
    }
  }

  // ---- The cache ----

  /** The upper half of a 32 by 32 bit product: maps a hash onto [0, n). */
  function FastRange32(x: nat, n: nat): nat {
    x % 0x1_0000_0000 * n / 0x1_0000_0000
  }

  lemma {:induction false} ProductBelow(h: nat, n: nat)
    requires h < 0x1_0000_0000 && n > 0
    ensures h * n < 0x1_0000_0000 * n
  {
    if n > 1 {
      ProductBelow(h, n - 1);
      assert h * n == h * (n - 1) + h;
    }
  }

  lemma {:induction false} HalfBelow(product: nat, n: nat)
    requires product < 0x1_0000_0000 * n
    ensures product / 0x1_0000_0000 < n
  {
  }

  lemma {:induction false} FastRangeBelow(x: nat, n: nat)
    requires n > 0
    ensures FastRange32(x, n) < n
  {
    var h := x % 0x1_0000_0000;
    ProductBelow(h, n);
    HalfBelow(h * n, n);
  }

  /** The eight places an element may be in. */
  function Locations<Element>(hash: (nat, Element) -> nat, e: Element, size: nat): (locs: seq<nat>)
    requires size > 0
    ensures |locs| == 8 && forall k :: 0 <= k < 8 ==> locs[k] < size
  {
    FastRangeBelow(hash(0, e), size); FastRangeBelow(hash(1, e), size); FastRangeBelow(hash(2, e), size);
        FastRangeBelow(hash(3, e), size);
    FastRangeBelow(hash(4, e), size); FastRangeBelow(hash(5, e), size); FastRangeBelow(hash(6, e), size);
        FastRangeBelow(hash(7, e), size);
    [FastRange32(hash(0, e), size), FastRange32(hash(1, e), size), FastRange32(hash(2, e), size),
        FastRange32(hash(3, e), size),
     FastRange32(hash(4, e), size), FastRange32(hash(5, e), size), FastRange32(hash(6, e), size),
         FastRange32(hash(7, e), size)]
  }

  /** Every slot that is not collectable holds an element that hashes to it. */
  ghost predicate Placed<Element>(hash: (nat, Element) -> nat, table: seq<Element>, collectable: seq<bool>) {
    |collectable| == |table| && forall i {:trigger table[i]} :: 0 <= i < |table| && !collectable[i] ==>
        i in Locations(hash, table[i], |table|)
  }

  /** One of the places of `e` holds it. */
  ghost predicate PresentIn<Element>(hash: (nat, Element) -> nat, table: seq<Element>, e: Element)
    requires |table| > 0
  {
    exists k {:trigger Locations(hash, e, |table|)[k]} :: 0 <= k < 8 && table[Locations(hash, e, |table|)[k]] == e
  }

  /** An element put into one of its places is found there, and the others are still found, except the
      one that was there. */
  lemma {:induction false} ReplacedPresent<Element(!new)>(hash: (nat, Element) -> nat, table: seq<Element>, i: nat,
      e: Element)
    requires i < |table| && i in Locations(hash, e, |table|)
    ensures PresentIn(hash, table[i := e], e)
    ensures forall x {:trigger PresentIn(hash, table[i := e], x)} :: PresentIn(hash, table, x) && x != table[i] ==>
            PresentIn(hash, table[i := e], x)
  {
    hide Locations;
    var k :| 0 <= k < 8 && Locations(hash, e, |table|)[k] == i;
    assert table[i := e][Locations(hash, e, |table[i := e]|)[k]] == e;
    forall x | PresentIn(hash, table, x) && x != table[i] ensures PresentIn(hash, table[i := e], x) {
      var j :| 0 <= j < 8 && table[Locations(hash, x, |table|)[j]] == x;
      assert table[i := e][Locations(hash, x, |table[i := e]|)[j]] == x;
    }
  }

  /** One of the places of `e` is collectable. */
  ghost predicate HasRoom<Element>(hash: (nat, Element) -> nat, collectable: seq<bool>, e: Element)
    requires |collectable| > 0
  {
    exists i {:trigger collectable[i]} ::
        0 <= i < |collectable| && i in Locations(hash, e, |collectable|) && collectable[i]
  }

  /** `e` was put into one of its places, and nothing else moved. */
  ghost predicate PutAt<Element>(hash: (nat, Element) -> nat, before: seq<Element>, after: seq<Element>, e: Element)
    requires |before| > 0
  {
    exists i {:trigger before[i := e]} ::
        0 <= i < |before| && i in Locations(hash, e, |before|) && after == before[i := e]
  }

  lemma {:induction false} MoreRoom<Element>(hash: (nat, Element) -> nat, before: seq<bool>, after: seq<bool>,
      e: Element)
    requires |after| == |before| > 0 && forall i {:trigger after[i]} :: 0 <= i < |before| && before[i] ==> after[i]
    ensures HasRoom(hash, before, e) ==> HasRoom(hash, after, e)
  {
    hide Locations;
    if HasRoom(hash, before, e) {
      var i :| 0 <= i < |before| && i in Locations(hash, e, |before|) && before[i];
      assert after[i];
    }
  }

  /** The table with `hand` besides holds what `before` held with `e` besides, and everything that was
      found is found, or in hand. */
  ghost predicate Carried<Element(!new)>(hash: (nat, Element) -> nat, before: seq<Element>, table: seq<Element>,
      e: Element, hand: Element) {
    && |before| == |table| > 0 && multiset(table) + multiset{hand} == multiset(before) + multiset{e}
    && forall x {:trigger PresentIn(hash, table, x)} :: PresentIn(hash, before, x) ==>
        PresentIn(hash, table, x) || x == hand
  }

  lemma {:induction false} NothingCarried<Element(!new)>(hash: (nat, Element) -> nat, table: seq<Element>, e: Element)
    requires |table| > 0
    ensures Carried(hash, table, table, e, e)
  {
  }

  lemma {:induction false} CarryOn<Element(!new)>(hash: (nat, Element) -> nat, before: seq<Element>,
      table: seq<Element>, e: Element, hand: Element, i: nat)
    requires Carried(hash, before, table, e, hand) && i < |table| && i in Locations(hash, hand, |table|)
    ensures Carried(hash, before, table[i := hand], e, table[i])
  {
    hide Locations, PresentIn;
    ReplacedPresent(hash, table, i, hand);
    assert multiset(table[i := hand]) + multiset{table[i]} == multiset(table) + multiset{hand};
    forall x {:trigger PresentIn(hash, table[i := hand], x)} | PresentIn(hash, before, x)
      ensures PresentIn(hash, table[i := hand], x) || x == table[i]
    {
      assert PresentIn(hash, table, x) || x == hand;
    }
  }

  /** `e` is in a slot that is not collectable. */
  ghost predicate LiveIn<Element>(table: seq<Element>, collectable: seq<bool>, e: Element)
    requires |table| == |collectable|
  {
    exists i {:trigger table[i]} :: 0 <= i < |table| && !collectable[i] && table[i] == e
  }

  /** Every live element but the one in hand is still live. */
  ghost predicate StillLive<Element(!new)>(table: seq<Element>, collectable: seq<bool>, table': seq<Element>,
      collectable': seq<bool>, hand: Element)
    requires |table| == |collectable| && |table'| == |collectable'|
  {
    forall x {:trigger LiveIn(table', collectable', x)} ::
      LiveIn(table, collectable, x) ==> LiveIn(table', collectable', x) || x == hand
  }

  lemma {:induction false} StillLiveStep<Element(!new)>(table0: seq<Element>, coll0: seq<bool>, table: seq<Element>,
      coll: seq<bool>, hand: Element, i: nat)
    requires |table0| == |coll0| && |table| == |coll| && i < |table| && StillLive(table0, coll0, table, coll, hand)
    ensures StillLive(table0, coll0, table[i := hand], coll[i := false], table[i])
  {
    var table', coll' := table[i := hand], coll[i := false];
    forall x {:trigger LiveIn(table', coll', x)} | LiveIn(table0, coll0, x)
      ensures LiveIn(table', coll', x) || x == table[i]
    {
      if x == hand {
        assert table'[i] == x;
      } else {
        assert LiveIn(table, coll, x);
        var j :| 0 <= j < |table| && !coll[j] && table[j] == x;
        assert j != i ==> table'[j] == x;
      }
    }
  }

  // ---- What inserting does ----

  /** The slots and their flags, and the element without a slot at the end. */
  datatype Slots<Element> = Slots(table: seq<Element>, epochs: seq<bool>, collectable: seq<bool>, dropped: Element)

  /** The first collectable one of the places from place k on, or 8. */
  function FirstFree(locs: seq<nat>, collectable: seq<bool>, k: nat): (r: nat)
    requires |locs| == 8 && k <= 8 && forall j :: 0 <= j < 8 ==> locs[j] < |collectable|
    ensures k <= r <= 8 && (r < 8 ==> collectable[locs[r]]) && forall j :: k <= j < r ==> !collectable[locs[j]]
    decreases 8 - k
  {
    if k == 8 || collectable[locs[k]] then k else FirstFree(locs, collectable, k + 1)
  }

  /** The place after the one used last; when that is not one of these places, the second. */
  function NextPlace(locs: seq<nat>, last: int): (i: nat)
    requires |locs| == 8
    ensures i in locs
  {
    locs[(1 + IndexOf(locs, last)) % 8]
  }

  /** Putting `hand` into its first collectable place; without one, exchanging it for what is in the next place,
      and going on with that, at most `limit` times. */
  ghost function Displaced<Element>(hash: (nat, Element) -> nat, table: seq<Element>, epochs: seq<bool>,
      collectable: seq<bool>, hand: Element, epoch: bool, last: int, limit: nat): Slots<Element>
    requires |table| == |epochs| == |collectable| > 0
    decreases limit
  {
    if limit == 0 then Slots(table, epochs, collectable, hand)
    else
      var locs := Locations(hash, hand, |table|);
      var k := FirstFree(locs, collectable, 0);
      if k < 8 then
        var i := locs[k];
        Slots(table[i := hand], epochs[i := epoch], collectable[i := false], table[i])
      else
        var i := NextPlace(locs, last);
        assert i < |table| by { var j :| 0 <= j < 8 && locs[j] == i; }
        Displaced(hash, table[i := hand], epochs[i := epoch], collectable, table[i], epochs[i], i, limit - 1)
  }

  lemma {:induction false} DisplacedStep<Element>(hash: (nat, Element) -> nat, table: seq<Element>, epochs: seq<bool>,
      collectable: seq<bool>, hand: Element, epoch: bool, last: int, limit: nat)
    requires |table| == |epochs| == |collectable| > 0 && limit > 0
    ensures var locs := Locations(hash, hand, |table|);
            var k := FirstFree(locs, collectable, 0);
            && NextPlace(locs, last) < |table|
            && Displaced(hash, table, epochs, collectable, hand, epoch, last, limit) ==
                 if k < 8 then
                   Slots(table[locs[k] := hand], epochs[locs[k] := epoch], collectable[locs[k] := false],
                       table[locs[k]])
                 else
                   var i := NextPlace(locs, last);
                   Displaced(hash, table[i := hand], epochs[i := epoch], collectable, table[i], epochs[i], i, limit - 1)
  {
    hide Locations, FirstFree, NextPlace;
  }

  lemma {:induction false} DisplacedNone<Element>(hash: (nat, Element) -> nat, table: seq<Element>, epochs: seq<bool>,
      collectable: seq<bool>, hand: Element, epoch: bool, last: int)
    requires |table| == |epochs| == |collectable| > 0
    ensures Displaced(hash, table, epochs, collectable, hand, epoch, last, 0) == Slots(table, epochs, collectable, hand)
  {
  }

  lemma {:induction false} AllLive<Element(!new)>(table: seq<Element>, collectable: seq<bool>, e: Element)
    requires |table| == |collectable|
    ensures StillLive(table, collectable, table, collectable, e)
  {
  }

  /** What was carried so far, and what is still live, stay so to the end. */
  lemma {:induction false} DisplacedKeeps<Element(!new)>(hash: (nat, Element) -> nat, before: seq<Element>,
      live: seq<bool>, e: Element, table: seq<Element>, epochs: seq<bool>, collectable: seq<bool>, hand: Element,
      epoch: bool, last: int, limit: nat)
    requires |before| == |live| == |table| == |epochs| == |collectable| > 0
    requires Carried(hash, before, table, e, hand) && StillLive(before, live, table, collectable, hand)
    requires hand == e || LiveIn(table, collectable, e)
    ensures var r := Displaced(hash, table, epochs, collectable, hand, epoch, last, limit);
            && |r.table| == |r.epochs| == |r.collectable| == |table| && Carried(hash, before, r.table, e, r.dropped)
            && StillLive(before, live, r.table, r.collectable, r.dropped)
            && (r.dropped == e || LiveIn(r.table, r.collectable, e))
    decreases limit
  {
    hide Locations, Carried, StillLive, LiveIn, Displaced;
    if limit == 0 {
      DisplacedNone(hash, table, epochs, collectable, hand, epoch, last);
      return;
    }
    var locs := Locations(hash, hand, |table|);
    var k := FirstFree(locs, collectable, 0);
    DisplacedStep(hash, table, epochs, collectable, hand, epoch, last, limit);
    var i := if k < 8 then locs[k] else NextPlace(locs, last);
    CarryOn(hash, before, table, e, hand, i);
    StillLiveStep(before, live, table, collectable, hand, i);
    LiveStep(table, collectable, e, hand, i);
    if k == 8 {
      var j :| 0 <= j < 8 && locs[j] == i;
      assert collectable[i := false] == collectable;
      DisplacedKeeps(hash, before, live, e, table[i := hand], epochs[i := epoch], collectable, table[i], epochs[i], i,
        limit - 1);
    }
  }

  lemma {:induction false} LiveStep<Element>(table: seq<Element>, collectable: seq<bool>, e: Element, hand: Element,
      i: nat)
    requires |table| == |collectable| && i < |table| && (hand == e || LiveIn(table, collectable, e))
    ensures table[i] == e || LiveIn(table[i := hand], collectable[i := false], e)
  {
    if hand == e {
      assert table[i := hand][i] == e;
    } else if table[i] != e {
      var j :| 0 <= j < |table| && !collectable[j] && table[j] == e;
      assert table[i := hand][j] == e;
    }
  }

  /** With room for it, the element is put there, and nothing moves. */
  lemma {:induction false} DisplacedRoom<Element>(hash: (nat, Element) -> nat, table: seq<Element>, epochs: seq<bool>,
      collectable: seq<bool>, hand: Element, epoch: bool, last: int, limit: nat)
    requires |table| == |epochs| == |collectable| > 0 && limit > 0 && HasRoom(hash, collectable, hand)
    ensures var r := Displaced(hash, table, epochs, collectable, hand, epoch, last, limit);
            |r.table| == |r.collectable| && PutAt(hash, table, r.table, hand) && LiveIn(r.table, r.collectable, hand)
  {
    hide Locations, Displaced;
    var locs := Locations(hash, hand, |table|);
    var k := FirstFree(locs, collectable, 0);
    DisplacedStep(hash, table, epochs, collectable, hand, epoch, last, limit);
    var i :| 0 <= i < |collectable| && i in locs && collectable[i];
    var j :| 0 <= j < 8 && locs[j] == i;
    assert k < 8;
    assert table[locs[k] := hand][locs[k]] == hand;
  }

  /** After a whole epoch: entries of the one before are collectable, and the current one becomes that. */
  function Aged(epochs: seq<bool>, collectable: seq<bool>): seq<bool>
    requires |epochs| == |collectable|
  {
    seq(|epochs|, i requires 0 <= i < |epochs| => collectable[i] || !epochs[i])
  }

  function NoneRecent(n: nat): seq<bool> {
    seq(n, _ => false)
  }

  function Larger(a: nat, b: nat): nat {
    if a > b then a else b
  }

  /** The slots of the current epoch that are not collectable. */
  ghost function Recent(epochs: seq<bool>, collectable: seq<bool>): set<nat>
    requires |epochs| == |collectable|
  {
    set i: nat | i < |epochs| && epochs[i] && !collectable[i]
  }

  function Slack(epochSize: nat): nat {
    if epochSize / 16 > 1 then epochSize / 16 else 1
  }

  /** Filling or refreshing a slot adds at most one recent entry, and none with the flag off. */
  lemma {:induction false} RecentPut(epochs: seq<bool>, collectable: seq<bool>, i: nat, b: bool)
    requires i < |epochs| == |collectable|
    ensures |Recent(epochs[i := b], collectable[i := false])| <= |Recent(epochs, collectable)| + if b then 1 else 0
  {
    var before, after := Recent(epochs, collectable), Recent(epochs[i := b], collectable[i := false]);
    if b {
      assert after == before + {i};
    } else {
      assert after == before - {i};
    }
  }

  /** Swapping the epoch flag of an occupied slot with the one in hand keeps their sum. */
  lemma {:induction false} RecentSwap(epochs: seq<bool>, collectable: seq<bool>, i: nat, b: bool)
    requires i < |epochs| == |collectable| && !collectable[i]
    ensures |Recent(epochs[i := b], collectable)| + (if epochs[i] then 1 else 0) == |Recent(epochs, collectable)|
            + if b then 1 else 0
  {
    var before, after := Recent(epochs, collectable), Recent(epochs[i := b], collectable);
    var others := before - {i};
    assert before == if epochs[i] then others + {i} else others;
    assert after == if b then others + {i} else others;
  }

  lemma {:induction false} RecentErase(epochs: seq<bool>, collectable: seq<bool>, i: nat)
    requires i < |epochs| == |collectable|
    ensures |Recent(epochs, collectable[i := true])| <= |Recent(epochs, collectable)|
  {
    assert Recent(epochs, collectable[i := true]) == Recent(epochs, collectable) - {i};
  }

  class Cache<Element(==, !new)> {
    const hash: (nat, Element) -> nat
    const size: nat
    const epochSize: nat
    const depthLimit: nat
    var table: seq<Element>
    const collectionFlags: BitPackedFlags
    /** What the collection flags say, entry by entry. */
    ghost var collectable: seq<bool>
    var epochFlags: seq<bool>
    var epochCounter: nat

    ghost predicate Sizes()
      reads this
    {
      size >= 2 && epochSize >= 1 && |table| == size && |collectable| == size && |epochFlags| == size
    }

    /** There is a flag for every entry. */
    ghost predicate Flagged()
      requires Sizes()
      reads this, collectionFlags
    {
      8 * |collectionFlags.mem| >= size && forall i {:trigger collectable[i]} :: 0 <= i < size ==>
          (collectable[i] <==> collectionFlags.IsSet(i))
    }

    /** The live entries of the current epoch, and those that may join before the next scan. */
    ghost predicate Budget()
      requires Sizes()
      reads this
    {
      |Recent(epochFlags, collectable)| + epochCounter <= epochSize + Slack(epochSize)
    }

    ghost predicate Valid()
      reads this, collectionFlags
    {
      Sizes() && Flagged() && Placed(hash, table, collectable) && Budget()
    }

    /** Set up for at least two elements; `depthLimit` is the rounded logarithm of the size. */
    constructor (hash: (nat, Element) -> nat, newSize: nat, blank: Element, depthLimit: nat)
      requires newSize < 0x1_0000_0000
      ensures fresh(collectionFlags) && this.hash == hash && size == if newSize > 2 then newSize else 2
      ensures Valid() <==> size + 7 < 0x1_0000_0000
      ensures |collectable| == size && forall i :: 0 <= i < size ==> collectable[i]
    {
      var n := if newSize > 2 then newSize else 2;
      var share := 45 * n % 0x1_0000_0000 / 100;
      this.hash, size, this.depthLimit, epochSize := hash, n, depthLimit, if share > 1 then share else 1;
      table, collectable, epochFlags := seq(n, _ => blank), seq(n, _ => true), seq(n, _ => false);
      epochCounter := if share > 1 then share else 1;
      collectionFlags := new BitPackedFlags(n);
      new;
      assert Recent(epochFlags, collectable) == {};
    }

    /** The next insertion finds the scan due and the epoch full. */
    ghost predicate TurnsEpoch()
      requires Sizes()
      reads this
    {
      epochCounter == 0 && |Recent(epochFlags, collectable)| >= epochSize
    }

    /** The flags once the epoch was checked. */
    ghost function NextCollectable(): seq<bool>
      requires Sizes()
      reads this
    {
      if TurnsEpoch() then Aged(epochFlags, collectable) else collectable
    }

    ghost function NextEpochs(): seq<bool>
      requires Sizes()
      reads this
    {
      if TurnsEpoch() then NoneRecent(size) else epochFlags
    }

    /** Allow an entry to be discarded. */
    method AllowErase(n: nat)
      requires Sizes() && Flagged() && n < size
      modifies this`collectable, collectionFlags
      ensures Sizes() && Flagged() && collectable == old(collectable)[n := true]
    {
      collectionFlags.BitSet(n);
      collectable := collectable[n := true];
    }

    /** Do not allow it. */
    method PleaseKeep(n: nat)
      requires Sizes() && Flagged() && n < size
      modifies this`collectable, collectionFlags
      ensures Sizes() && Flagged() && collectable == old(collectable)[n := false]
    {
      collectionFlags.BitUnset(n);
      collectable := collectable[n := false];
    }

    /** Age the epochs when the current one may be full. Nothing becomes uncollectable. */
    method EpochCheck()
      requires Valid()
      modifies this`collectable, this`epochFlags, this`epochCounter, collectionFlags
      ensures Sizes() && Flagged() && Placed(hash, table, collectable)
      ensures |Recent(epochFlags, collectable)| + epochCounter + 1 <= epochSize + Slack(epochSize)
      ensures forall i {:trigger collectable[i]} :: 0 <= i < size && old(collectable)[i] ==> collectable[i]
      ensures collectable == old(NextCollectable()) && epochFlags == old(NextEpochs())
      ensures epochCounter == old(if epochCounter != 0 then epochCounter - 1 else if TurnsEpoch() then epochSize
                                  else Larger(1, Larger(epochSize / 16, epochSize - |Recent(epochFlags, collectable)|)))
    {
      if epochCounter != 0 {
        epochCounter := epochCounter - 1;
        return;
      }
      var count := CountRecent();
      if count >= epochSize {
        Age();
        assert collectable == old(NextCollectable());
        epochCounter := epochSize;
      } else {
        var left := epochSize - count;
        epochCounter := Larger(1, Larger(epochSize / 16, left));
      }
    }

    method CountRecent() returns (count: nat)
      requires Sizes() && Flagged()
      ensures count == |Recent(epochFlags, collectable)|
    {
      count := 0;
      ghost var seen: set<nat> := {};
      for i := 0 to size
        invariant seen == (set j: nat | j < i && epochFlags[j] && !collectable[j]) && count == |seen|
      {
        if epochFlags[i] && !collectionFlags.IsSet(i) {
          assert !collectable[i];
          count := count + 1;
          seen := seen + {i as nat};
        }
      }
      assert seen == Recent(epochFlags, collectable);
    }

    /** Allow the previous epoch to be collected, and make the current one the previous. */
    method Age()
      requires Sizes() && Flagged() && Placed(hash, table, collectable)
      modifies this`collectable, this`epochFlags, collectionFlags
      ensures Sizes() && Flagged() && Placed(hash, table, collectable) && Recent(epochFlags, collectable) == {}
      ensures forall i {:trigger collectable[i]} :: 0 <= i < size ==>
              (collectable[i] <==> old(collectable)[i] || !old(epochFlags)[i])
      ensures epochFlags == NoneRecent(size)
    {
      for i := 0 to size
        invariant Sizes() && Flagged()
        invariant forall j {:trigger collectable[j]} :: 0 <= j < i ==>
                (collectable[j] <==> old(collectable)[j] || !old(epochFlags)[j])
        invariant forall j {:trigger epochFlags[j]} :: 0 <= j < i ==> !epochFlags[j]
        invariant forall j {:trigger collectable[j]} {:trigger epochFlags[j]} :: i <= j < size ==>
                collectable[j] == old(collectable)[j] && epochFlags[j] == old(epochFlags)[j]
      {
        if epochFlags[i] {
          epochFlags := epochFlags[i := false];
        } else {
          AllowErase(i);
        }
      }
    }

    /** One of the places of `e` holds it. */
    ghost predicate Present(e: Element)
      requires Sizes()
      reads this
    {
      PresentIn(hash, table, e)
    }

    /** `e` is in a slot that is not collectable. */
    ghost predicate Live(e: Element)
      requires Sizes()
      reads this
    {
      LiveIn(table, collectable, e)
    }

    /** Whether `e` is in one of its places; if asked, allow that place to be collected. Every
        element in a slot that is not collectable is found. */
    method Contains(e: Element, erase: bool) returns (found: bool)
      requires Valid()
      modifies this`collectable, collectionFlags
      ensures Valid() && (found <==> Present(e))
      ensures (exists i :: 0 <= i < size && !old(collectable)[i] && table[i] == e) ==> found
      ensures if erase && found
              then exists i :: 0 <= i < size && table[i] == e && collectable == old(collectable)[i := true]
              else collectable == old(collectable)
    {
      var locs := Locations(hash, e, size);
      for k := 0 to 8
        invariant forall j {:trigger locs[j]} :: 0 <= j < k ==> table[locs[j]] != e
      {
        if table[locs[k]] == e {
          if erase {
            RecentErase(epochFlags, collectable, locs[k]);
            AllowErase(locs[k]);
          }
          return true;
        }
      }
      LiveFound(e, locs);
      found := false;
    }

    lemma {:induction false} LiveFound(e: Element, locs: seq<nat>)
      requires Valid() && locs == Locations(hash, e, size)
      requires forall j {:trigger locs[j]} :: 0 <= j < 8 ==> table[locs[j]] != e
      ensures !Present(e) && forall i :: 0 <= i < size && !collectable[i] ==> table[i] != e
    {
      hide Locations;
      assert |locs| == 8;
      forall i | 0 <= i < size && !collectable[i] ensures table[i] != e {
        assert i in Locations(hash, table[i], |table|);
        assert i in locs ==> exists j :: 0 <= j < 8 && locs[j] == i;
      }
    }

    /** Insert `e`. If it was in one of its places the table stays, and it is kept there. Otherwise the slots
        change as the displacements say: the table holds `e` and what it held, except for one element, which
        may be `e`. All others are still found, and live if they were live after the check of the epoch. */
    method Insert(e: Element) returns (ghost dropped: Element)
      requires Valid()
      modifies this, collectionFlags
      ensures Valid()
      ensures forall x :: old(Present(x)) && x != dropped ==> Present(x)
      ensures StillLive(old(table), old(NextCollectable()), table, collectable, dropped)
      ensures old(Present(e)) ==>
                && table == old(table) && Live(e)
                && exists i {:trigger table[i]} :: 0 <= i < size && table[i] == e
                     && collectable == old(NextCollectable())[i := false] && epochFlags == old(NextEpochs())[i := true]
      ensures !old(Present(e)) ==>
                && multiset(table) + multiset{dropped} == multiset(old(table)) + multiset{e}
                && (dropped == e || Live(e))
                && Slots(table, epochFlags, collectable, dropped)
                   == Displaced(hash, old(table), old(NextEpochs()), old(NextCollectable()), e, true, -1, depthLimit)
      ensures !old(Present(e)) && depthLimit > 0 && HasRoom(hash, old(collectable), e) ==>
              Live(e) && PutAt(hash, old(table), table, e)
    {
      hide Locations, Recent, Slack, Placed, PresentIn, Displaced, StillLive, Aged;
      EpochCheck();
      MoreRoom(hash, old(collectable), collectable, e);
      var known := Refresh(e);
      if known {
        dropped := e;
      } else {
        dropped := Displace(e);
      }
    }

    /** If `e` is in one of its places, keep it there. */
    method Refresh(e: Element) returns (known: bool)
      requires Sizes() && Flagged() && Placed(hash, table, collectable)
      requires |Recent(epochFlags, collectable)| + epochCounter + 1 <= epochSize + Slack(epochSize)
      modifies this`table, this`collectable, this`epochFlags, collectionFlags
      ensures known <==> old(Present(e))
      ensures known ==> Valid() && table == old(table) && Live(e)
      ensures known ==> StillLive(old(table), old(collectable), table, collectable, e)
      ensures known ==> exists i {:trigger table[i]} :: 0 <= i < size && table[i] == e
                          && collectable == old(collectable)[i := false] && epochFlags == old(epochFlags)[i := true]
      ensures !known ==>
              table == old(table) && collectable == old(collectable) && epochFlags == old(epochFlags) && Flagged()
    {
      hide Locations, Recent, Slack, StillLive;
      AllLive(table, collectable, e);
      var locs := Locations(hash, e, size);
      for k := 0 to 8
        invariant table == old(table) && collectable == old(collectable) && epochFlags == old(epochFlags) && Flagged()
        invariant forall j {:trigger locs[j]} :: 0 <= j < k ==> table[locs[j]] != e
      {
        if table[locs[k]] == e {
          StillLiveStep(table, collectable, table, collectable, e, locs[k]);
          Put(locs[k], e, true, locs);
          assert table == old(table);
          return true;
        }
      }
      known := false;
    }

    /** Put `e` into a free place, or else kick out what is in one and go on with that. */
    method Displace(e: Element) returns (ghost dropped: Element)
      requires Sizes() && Flagged() && Placed(hash, table, collectable)
      requires |Recent(epochFlags, collectable)| + epochCounter + 1 <= epochSize + Slack(epochSize)
      modifies this`table, this`collectable, this`epochFlags, collectionFlags
      ensures Valid() && Carried(hash, old(table), table, e, dropped) && (dropped == e || Live(e))
      ensures StillLive(old(table), old(collectable), table, collectable, dropped)
      ensures depthLimit > 0 && HasRoom(hash, old(collectable), e) ==> Live(e) && PutAt(hash, old(table), table, e)
      ensures Slots(table, epochFlags, collectable, dropped)
              == Displaced(hash, old(table), old(epochFlags), old(collectable), e, true, -1, depthLimit)
    {
      hide Locations, Recent, Slack, Placed, Carried, HasRoom, PutAt, Displaced, StillLive, LiveIn, FirstFree,
          NextPlace;
      ghost var budget := |Recent(epochFlags, collectable)| + 1;
      ghost var goal := Displaced(hash, table, epochFlags, collectable, e, true, -1, depthLimit);
      NothingCarried(hash, table, e);
      AllLive(table, collectable, e);
      DisplacedKeeps(hash, table, collectable, e, table, epochFlags, collectable, e, true, -1, depthLimit);
      if depthLimit > 0 && HasRoom(hash, collectable, e) {
        DisplacedRoom(hash, table, epochFlags, collectable, e, true, -1, depthLimit);
      }
      var locs := Locations(hash, e, size);
      var hand, lastEpoch := e, true;
      var lastLoc: int := -1;
      var depth := 0;
      while depth < depthLimit
        invariant Sizes() && Flagged() && Placed(hash, table, collectable) && locs == Locations(hash, hand, size)
        invariant depth <= depthLimit
        invariant Displaced(hash, table, epochFlags, collectable, hand, lastEpoch, lastLoc, depthLimit - depth) == goal
        invariant |Recent(epochFlags, collectable)| + (if lastEpoch then 1 else 0) <= budget
        decreases depthLimit - depth
      {
        DisplacedStep(hash, table, epochFlags, collectable, hand, lastEpoch, lastLoc, depthLimit - depth);
        var free := FirstCollectable(locs);
        if free < 8 {
          dropped := table[locs[free]];
          Put(locs[free], hand, lastEpoch, locs);
          return;
        }
        lastLoc := NextPlace(locs, lastLoc);
        hand, lastEpoch := Kick(lastLoc, hand, lastEpoch);
        locs := Locations(hash, hand, size);
        depth := depth + 1;
      }
      dropped := hand;
      DisplacedNone(hash, table, epochFlags, collectable, hand, lastEpoch, lastLoc);
    }

    /** The first of the places that is collectable, or 8. */
    method FirstCollectable(locs: seq<nat>) returns (k: nat)
      requires Sizes() && Flagged() && |locs| == 8 && forall j :: 0 <= j < 8 ==> locs[j] < size
      ensures k == FirstFree(locs, collectable, 0)
    {
      k := 0;
      while k < 8 && !collectionFlags.IsSet(locs[k])
        invariant k <= 8 && FirstFree(locs, collectable, 0) == FirstFree(locs, collectable, k)
      {
        k := k + 1;
      }
    }

    /** Put an element into one of its places and keep it. */
    method Put(i: nat, e: Element, recent: bool, ghost locs: seq<nat>)
      requires Sizes() && Flagged() && Placed(hash, table, collectable) && locs == Locations(hash, e, size) && i in locs
      modifies this`table, this`collectable, this`epochFlags, collectionFlags
      ensures Sizes() && Flagged() && Placed(hash, table, collectable) && table == old(table)[i := e]
      ensures collectable == old(collectable)[i := false] && epochFlags == old(epochFlags)[i := recent]
      ensures |Recent(epochFlags, collectable)| <= |old(Recent(epochFlags, collectable))| + if recent then 1 else 0
    {
      hide Locations;
      RecentPut(epochFlags, collectable, i, recent);
      table := table[i := e];
      PleaseKeep(i);
      epochFlags := epochFlags[i := recent];
    }

    /** Exchange the element in hand, and its epoch flag, for those of an occupied place. */
    method Kick(i: nat, e: Element, recent: bool) returns (hand: Element, epoch: bool)
      requires Sizes() && Placed(hash, table, collectable) && i in Locations(hash, e, size) && i < size
      requires !collectable[i]
      modifies this`table, this`epochFlags
      ensures Sizes() && Placed(hash, table, collectable) && table == old(table)[i := e] && hand == old(table)[i]
      ensures epochFlags == old(epochFlags)[i := recent] && epoch == old(epochFlags)[i]
      ensures |Recent(epochFlags, collectable)| + (if epoch then 1 else 0) == |old(Recent(epochFlags, collectable))|
              + if recent then 1 else 0
    {
      hide Locations;
      RecentSwap(epochFlags, collectable, i, recent);
      hand, epoch := table[i], epochFlags[i];
      table := table[i := e];
      epochFlags := epochFlags[i := recent];
    }
  }

  /** The first index of `x`, or the length. */
  function IndexOf(s: seq<nat>, x: int): (k: nat)
    ensures k <= |s| && (k < |s| ==> s[k] == x) && forall j :: 0 <= j < k ==> s[j] != x
  {
    if s == [] || s[0] == x then 0 else 1 + IndexOf(s[1..], x)
  }
}
