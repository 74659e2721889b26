/** The mutable dependency graph object: adding and removing transactions and dependencies,
    remapping positions, and connected components (src/cluster_linearize.h, class DepGraph). */
module DepGraphObjects {
  import opened FeeFracs
  import opened Sums
  import opened DepGraphs

  /** The positions that are an ancestor of some element of `parents`. */
  ghost function AncestorsOf(g: Graph, parents: set<nat>): set<nat> {
    set a | a in g.used && Covered(g, a, parents)
  }

  /** `h` is `g` with the dependencies of `child` on `parents` added: ancestors of the parents
      become ancestors of the descendants of the child, seen from both ends. */
  ghost predicate Extended(g: Graph, h: Graph, parents: set<nat>, child: nat) {
    && h.used == g.used && |h.entries| == |g.entries|
    && (forall i :: i in g.used ==> FeeRate(h, i) == FeeRate(g, i))
    && (forall d :: d in g.used ==>
          Anc(h, d) == if child in Anc(g, d) then Anc(g, d) + AncestorsOf(g, parents) else Anc(g, d))
    && (forall a :: a in g.used ==>
          Desc(h, a) == if a in AncestorsOf(g, parents) then Desc(g, a) + Desc(g, child) else Desc(g, a))
  }

  /** A relation from ancestors to descendants, given by the ancestor set of each position. */
  type Relation = nat -> set<nat>

  ghost predicate TransitiveOn(r: Relation, used: set<nat>) {
    forall i, j {:trigger j in r(i)} :: i in used && j in used && j in r(i) ==> r(j) <= r(i)
  }

  /** Adding dependencies keeps the graph well-formed, contains the new edges, and is the least
      such relation: any transitive relation that contains the old ancestors and the new edges
      contains the new ancestors. */
  lemma {:induction false} ExtendedIsClosure(g: Graph, h: Graph, parents: set<nat>, child: nat, r: Relation)
    requires WellFormed(g) && parents <= g.used && child in g.used && Extended(g, h, parents, child)
    ensures WellFormed(h)
    ensures parents <= Anc(h, child) && forall i :: i in g.used ==> Anc(g, i) <= Anc(h, i)
    ensures (TransitiveOn(r, g.used) && parents <= r(child) && (forall i :: i in g.used ==> Anc(g, i) <= r(i))) ==>
              forall i :: i in g.used ==> Anc(h, i) <= r(i)
  {
    ExtendedWellFormed(g, h, parents, child);
    forall p | p in parents ensures p in Anc(h, child) {
      assert p in Anc(g, p);
      assert Covered(g, p, parents);
    }
    if TransitiveOn(r, g.used) && parents <= r(child) && (forall i :: i in g.used ==> Anc(g, i) <= r(i)) {
      forall i, a | i in g.used && a in Anc(h, i) ensures a in r(i) {
        if a !in Anc(g, i) {
          assert Covered(g, a, parents);
          var p :| p in parents && a in Anc(g, p);
          assert a in r(p) && p in r(child) && child in r(i);
          assert r(child) <= r(i);
          assert r(p) <= r(i);
        }
      }
    }
  }

  lemma {:induction false} ExtendedWellFormed(g: Graph, h: Graph, parents: set<nat>, child: nat)
    requires WellFormed(g) && parents <= g.used && child in g.used && Extended(g, h, parents, child)
    ensures WellFormed(h)
  {
    var pa := AncestorsOf(g, parents);
    forall i, j | i in g.used && j in Anc(h, i) ensures Anc(h, j) <= Anc(h, i) {
      if j in Anc(g, i) {
        assert Anc(g, j) <= Anc(g, i);
        if child in Anc(g, j) { assert child in Anc(g, i); }
      } else {
        assert j in pa && child in Anc(g, i);
        assert Covered(g, j, parents);
        var p :| p in parents && j in Anc(g, p);
        forall a | a in Anc(h, j) ensures a in Anc(h, i) {
          if a in Anc(g, j) {
            assert a in Anc(g, p);
            assert Covered(g, a, parents);
          }
        }
      }
    }
    forall i, j | i in g.used && j in g.used ensures i in Anc(h, j) <==> j in Desc(h, i) {
      assert i in Anc(g, j) <==> j in Desc(g, i);
      assert child in Anc(g, j) <==> j in Desc(g, child);
    }
    assert forall i :: i in g.used ==> Desc(h, i) <= g.used;
  }

  function MoreDescendants(e: Entry, more: set<nat>): Entry {
    e.(descendants := e.descendants + more)
  }

  function MoreAncestors(e: Entry, more: set<nat>): Entry {
    e.(ancestors := e.ancestors + more)
  }

  ghost predicate Spread(g: Graph, h: Graph, parAnc: set<nat>, child: nat, i: nat) {
    && FeeRate(h, i) == FeeRate(g, i)
    && Desc(h, i) == Desc(g, i) + (if i in parAnc then Desc(g, child) else {})
    && Anc(h, i) == Anc(g, i) + (if i in Desc(g, child) then parAnc else {})
  }

  function Restrict(e: Entry, used: set<nat>): Entry {
    Entry(e.feerate, e.ancestors * used, e.descendants * used)
  }

  /** The ancestors of `parents` that `child` does not have yet. */
  method NewAncestors(g: Graph, parents: set<nat>, child: nat) returns (parAnc: set<nat>)
    requires WellFormed(g) && parents <= g.used && child in g.used
    ensures parAnc == AncestorsOf(g, parents) - Anc(g, child)
  {
    hide WellFormed, AncestorsOf;
    parAnc := {};
    ghost var start := parents - Anc(g, child);
    var rest := parents - Anc(g, child);
    while rest != {}
      invariant rest <= start && parAnc <= AncestorsOf(g, parents)
      invariant forall p {:trigger Anc(g, p)} :: p in start && p !in rest ==> Anc(g, p) <= parAnc
      decreases |rest|
    {
      var par := First(rest);
      AncestorsOfOne(g, par, parents);
      parAnc := parAnc + Anc(g, par);
      rest := rest - {par};
    }
    AncestorsBeyond(g, parents, child, parAnc);
    parAnc := parAnc - Anc(g, child);
  }

  lemma {:induction false} AncestorsOfOne(g: Graph, par: nat, parents: set<nat>)
    requires WellFormed(g) && parents <= g.used && par in parents
    ensures Anc(g, par) <= AncestorsOf(g, parents)
  {
    forall a | a in Anc(g, par) ensures a in AncestorsOf(g, parents) { assert Covered(g, a, parents); }
  }

  /** Parents that the child already has bring no new ancestors. */
  lemma {:induction false} AncestorsBeyond(g: Graph, parents: set<nat>, child: nat, all: set<nat>)
    requires WellFormed(g) && parents <= g.used && child in g.used
    requires forall p {:trigger Anc(g, p)} :: p in parents - Anc(g, child) ==> Anc(g, p) <= all
    ensures AncestorsOf(g, parents) - Anc(g, child) <= all
  {
    forall a | a in AncestorsOf(g, parents) && a !in Anc(g, child) ensures a in all {
      assert Covered(g, a, parents);
      var p :| p in parents && a in Anc(g, p);
      assert p in Anc(g, child) ==> Anc(g, p) <= Anc(g, child);
    }
  }

  class DepGraph {
    /** SetType::Size(): how many positions the set type can hold. */
    const capacity: nat
    var entries: seq<Entry>
    var used: set<nat>

    function View(): Graph
      reads this
    {
      Graph(entries, used)
    }

    ghost predicate Valid()
      reads this
    {
      WellFormed(View()) && TightRange(View()) && |entries| <= capacity
    }

    constructor (capacity: nat)
      ensures this.capacity == capacity && Valid() && used == {}
    {
      this.capacity := capacity;
      entries := [];
      used := {};
    }

    /** Adds an unconnected transaction at the first free position. */
    method AddTransaction(feerate: FeeFrac) returns (idx: nat)
      requires Valid() && exists i: nat :: i < capacity && i !in used
      modifies this
      ensures Valid() && idx !in old(used) && used == old(used) + {idx} && idx < capacity
      ensures forall j: nat :: j < idx ==> j in old(used)
      ensures FeeRate(View(), idx) == feerate && Anc(View(), idx) == {idx} && Desc(View(), idx) == {idx}
      ensures forall i :: i in old(used) ==>
                FeeRate(View(), i) == old(FeeRate(View(), i)) && Anc(View(), i) == old(Anc(View(), i))
                && Desc(View(), i) == old(Desc(View(), i))
    {
      var available := Fill(capacity) - used;
      ghost var free: nat :| free < capacity && free !in used;
      assert free in available;
      idx := First(available);
      forall j: nat | j < idx ensures j in used {
        assert j in Fill(capacity) && j !in available;
      }
      var entry := Entry(feerate, {idx}, {idx});
      if idx >= |entries| {
        assert idx == |entries| by {
          assert |entries| < capacity ==> |entries| in available;
        }
        entries := entries + [entry];
      } else {
        entries := entries[idx := entry];
      }
      used := used + {idx};
      ghost var g, h := old(View()), View();
      assert forall i :: i in g.used ==> h.entries[i] == g.entries[i];
    }

    /** Removes transactions; what remains keeps exactly its remaining ancestors and descendants. */
    method RemoveTransactions(del: set<nat>)
      requires Valid()
      modifies this
      ensures Valid() && used == old(used) - del && |entries| <= old(|entries|)
      ensures forall i :: i in used ==>
                FeeRate(View(), i) == old(FeeRate(View(), i)) && Anc(View(), i) == old(Anc(View(), i)) * used
                && Desc(View(), i) == old(Desc(View(), i)) * used
    {
      used := used - del;
      while |entries| > 0 && |entries| - 1 !in used
        invariant |entries| <= old(|entries|) && entries == old(entries)[..|entries|]
        invariant used == old(used) - del && forall i :: i in used ==> i < |entries|
        decreases |entries|
      {
        entries := entries[..|entries| - 1];
      }
      ghost var before := entries;
      var k := 0;
      while k < |entries|
        invariant used == old(used) - del && k <= |entries| == |before|
        invariant forall i :: k <= i < |entries| ==> entries[i] == before[i]
        invariant forall i :: 0 <= i < k ==> entries[i] == Restrict(before[i], used)
      {
        entries := entries[k := Restrict(entries[k], used)];
        k := k + 1;
      }
      RestrictedWellFormed(old(View()), View());
    }

    /** Adds dependencies of `child` on each of `parents`. */
    method AddDependencies(parents: set<nat>, child: nat)
      requires Valid() && child in used && parents <= used
      modifies this`entries
      ensures Valid() && Extended(old(View()), View(), parents, child)
    {
      hide WellFormed, Extended;
      var h := AddEdges(View(), parents, child);
      ExtendedShape(View(), h, parents, child);
      entries := h.entries;
      assert View() == h;
    }

    /** Builds `g` with its positions renamed by `mapping`. */
    constructor Remapped(g: Graph, mapping: seq<nat>, posRange: nat)
      requires WellFormed(g) && Acyclic(g) && RemapArguments(g, mapping, posRange)
      ensures capacity == posRange && Valid() && |entries| == posRange && IsRemapped(g, View(), mapping)
    {
      var h := Remap(g, mapping, posRange);
      capacity := posRange;
      entries := h.entries;
      used := h.used;
      new;
      assert View() == h;
    }
  }

  /** The work of AddDependencies: collect the new ancestors of the child, then update the
      descendants of each of them and the ancestors of each descendant of the child. */
  method AddEdges(g: Graph, parents: set<nat>, child: nat) returns (h: Graph)
    requires WellFormed(g) && child in g.used && parents <= g.used
    ensures Extended(g, h, parents, child) && WellFormed(h)
  {
    hide *;
    var parAnc := NewAncestors(g, parents, child);
    if parAnc == {} {
      NothingToAdd(g, parents, child);
      return g;
    }
    UpdateRanges(g, parents, child);
    var entries := AddDescendants(g.entries, parAnc, Desc(g, child));
    ghost var half := entries;
    entries := AddAncestors(entries, Desc(g, child), parAnc);
    h := Graph(entries, g.used);
    LoopsSpread(g, half, h, parAnc, child);
    SpreadIsExtended(g, h, parents, child, parAnc);
    ExtendedWellFormed(g, h, parents, child);
  }

  lemma {:induction false} UpdateRanges(g: Graph, parents: set<nat>, child: nat)
    requires WellFormed(g) && child in g.used
    ensures forall i :: i in AncestorsOf(g, parents) - Anc(g, child) ==> i < |g.entries|
    ensures forall i :: i in Desc(g, child) ==> i < |g.entries|
  {
  }

  lemma {:induction false} LoopsSpread(g: Graph, half: seq<Entry>, h: Graph, parAnc: set<nat>, child: nat)
    requires |half| == |g.entries| == |h.entries|
    requires forall i :: 0 <= i < |half| ==>
            half[i] == MoreDescendants(g.entries[i], if i in parAnc then Desc(g, child) else {})
    requires forall i :: 0 <= i < |half| ==>
            h.entries[i] == MoreAncestors(half[i], if i in Desc(g, child) then parAnc else {})
    ensures forall i :: 0 <= i < |g.entries| ==> Spread(g, h, parAnc, child, i)
  {
  }

  method AddDescendants(before: seq<Entry>, which: set<nat>, more: set<nat>) returns (entries: seq<Entry>)
    requires forall i :: i in which ==> i < |before|
    ensures |entries| == |before|
    ensures forall i :: 0 <= i < |entries| ==> entries[i] == MoreDescendants(before[i], if i in which then more else {})
  {
    entries := before;
    var rest := which;
    while rest != {}
      invariant rest <= which && |entries| == |before|
      invariant forall i :: 0 <= i < |entries| ==>
                  entries[i] == MoreDescendants(before[i], if i in which - rest then more else {})
      decreases |rest|
    {
      var a := First(rest);
      entries := entries[a := MoreDescendants(entries[a], more)];
      rest := rest - {a};
    }
  }

  method AddAncestors(before: seq<Entry>, which: set<nat>, more: set<nat>) returns (entries: seq<Entry>)
    requires forall i :: i in which ==> i < |before|
    ensures |entries| == |before|
    ensures forall i :: 0 <= i < |entries| ==> entries[i] == MoreAncestors(before[i], if i in which then more else {})
  {
    entries := before;
    var rest := which;
    while rest != {}
      invariant rest <= which && |entries| == |before|
      invariant forall i :: 0 <= i < |entries| ==>
                  entries[i] == MoreAncestors(before[i], if i in which - rest then more else {})
      decreases |rest|
    {
      var d := First(rest);
      entries := entries[d := MoreAncestors(entries[d], more)];
      rest := rest - {d};
    }
  }

  lemma {:induction false} ExtendedShape(g: Graph, h: Graph, parents: set<nat>, child: nat)
    requires Extended(g, h, parents, child)
    ensures h.used == g.used && |h.entries| == |g.entries|
  {
  }

  lemma {:induction false} RestrictedWellFormed(g: Graph, h: Graph)
    requires WellFormed(g) && h.used <= g.used && |h.entries| <= |g.entries|
    requires forall i :: i in h.used ==>
            i < |h.entries| && Anc(h, i) == Anc(g, i) * h.used && Desc(h, i) == Desc(g, i) * h.used
    ensures WellFormed(h)
  {
    forall i, j | i in h.used && j in Anc(h, i) ensures Anc(h, j) <= Anc(h, i) {
      assert Anc(g, j) <= Anc(g, i);
    }
  }

  lemma {:induction false} NothingToAdd(g: Graph, parents: set<nat>, child: nat)
    requires WellFormed(g) && parents <= g.used && child in g.used
    requires AncestorsOf(g, parents) - Anc(g, child) == {}
    ensures Extended(g, g, parents, child)
  {
    assert AncestorsOf(g, parents) <= AncestorsOf(g, parents) - Anc(g, child) + Anc(g, child);
    forall d | d in g.used && child in Anc(g, d) ensures AncestorsOf(g, parents) <= Anc(g, d) {
      assert Anc(g, child) <= Anc(g, d);
    }
    forall a | a in g.used && a in AncestorsOf(g, parents) ensures Desc(g, child) <= Desc(g, a) {
      assert a in Anc(g, child);
      forall d | d in Desc(g, child) ensures d in Desc(g, a) {
        assert child in Anc(g, d);
        assert Anc(g, child) <= Anc(g, d);
      }
    }
  }

  lemma {:induction false} SpreadIsExtended(g: Graph, h: Graph, parents: set<nat>, child: nat, parAnc: set<nat>)
    requires WellFormed(g) && parents <= g.used && child in g.used
    requires parAnc == AncestorsOf(g, parents) - Anc(g, child)
    requires g.used == h.used && |g.entries| == |h.entries|
    requires forall i :: 0 <= i < |g.entries| ==> Spread(g, h, parAnc, child, i)
    ensures Extended(g, h, parents, child)
  {
    var pa := AncestorsOf(g, parents);
    assert forall i :: i in g.used ==> Spread(g, h, parAnc, child, i);
    forall d | d in g.used ensures Anc(h, d) == if child in Anc(g, d) then Anc(g, d) + pa else Anc(g, d) {
      assert child in Anc(g, d) <==> d in Desc(g, child);
      if child in Anc(g, d) { assert Anc(g, child) <= Anc(g, d); }
    }
    forall a | a in g.used ensures Desc(h, a) == if a in pa then Desc(g, a) + Desc(g, child) else Desc(g, a) {
      if a in pa && a in Anc(g, child) {
        forall d | d in Desc(g, child) ensures d in Desc(g, a) {
          assert child in Anc(g, d);
          assert Anc(g, child) <= Anc(g, d);
        }
      }
    }
  }

  // ---- Remapping ----

  function At(mapping: seq<nat>, i: nat): nat {
    if i < |mapping| then mapping[i] else 0
  }

  ghost predicate InjectiveOn(mapping: seq<nat>, used: set<nat>) {
    forall i, j {:trigger At(mapping, i), At(mapping, j)} ::
        i in used && j in used && At(mapping, i) == At(mapping, j) ==> i == j
  }

  function Image(mapping: seq<nat>, s: set<nat>): set<nat> {
    set i | i in s :: At(mapping, i)
  }

  /** The ancestors of `h` are ancestors of `g`, position by position. */
  ghost predicate RemapSound(g: Graph, h: Graph, mapping: seq<nat>) {
    forall i, j {:trigger At(mapping, i) in Anc(h, At(mapping, j))} ::
      i in g.used && j in g.used && At(mapping, i) in Anc(h, At(mapping, j)) ==> i in Anc(g, j)
  }

  ghost predicate RemapComplete(g: Graph, h: Graph, mapping: seq<nat>) {
    forall i, j {:trigger At(mapping, i) in Anc(h, At(mapping, j))} ::
      i in g.used && j in g.used && i in Anc(g, j) ==> At(mapping, i) in Anc(h, At(mapping, j))
  }

  ghost predicate SamePlaces(g: Graph, h: Graph, mapping: seq<nat>) {
    h.used == Image(mapping, g.used) && forall i :: i in g.used ==> FeeRate(h, At(mapping, i)) == FeeRate(g, i)
  }

  /** `h` is `g` with every position moved by `mapping`: same feerates, same ancestor relation. */
  ghost predicate IsRemapped(g: Graph, h: Graph, mapping: seq<nat>) {
    SamePlaces(g, h, mapping) && RemapSound(g, h, mapping) && RemapComplete(g, h, mapping)
  }

  /** The dependencies on `parents[k]` have been added for every k. */
  ghost predicate EdgesIn(h: Graph, mapping: seq<nat>, parents: map<nat, set<nat>>) {
    forall k, p {:trigger At(mapping, p) in Anc(h, At(mapping, k))} ::
      k in parents && p in parents[k] ==> At(mapping, p) in Anc(h, At(mapping, k))
  }

  lemma {:induction false} EdgesGenerate(g: Graph, h: Graph, mapping: seq<nat>, parents: map<nat, set<nat>>, a: nat,
      i: nat)
    requires WellFormed(g) && Acyclic(g) && WellFormed(h) && h.used == Image(mapping, g.used)
    requires parents.Keys == g.used && (forall k :: k in g.used ==> Generates(g, parents[k], k))
    requires EdgesIn(h, mapping, parents)
    requires i in g.used && a in Anc(g, i)
    ensures At(mapping, a) in Anc(h, At(mapping, i))
    decreases |Anc(g, i)|
  {
    assert At(mapping, i) in h.used;
    if a != i {
      assert Covered(g, a, parents[i]);
      var p :| p in parents[i] && a in Anc(g, p);
      AncestorCount(g, p, i);
      EdgesGenerate(g, h, mapping, parents, a, p);
      assert At(mapping, p) in Anc(h, At(mapping, i));
    }
  }

  lemma {:induction false} RemapSoundStep(g: Graph, h: Graph, k: Graph, mapping: seq<nat>, ps: set<nat>, i: nat)
    requires WellFormed(g) && h.used == Image(mapping, g.used) && i in g.used && ps <= Anc(g, i)
    requires RemapSound(g, h, mapping) && Extended(h, k, Image(mapping, ps), At(mapping, i))
    ensures RemapSound(g, k, mapping)
  {
    forall a, j | a in g.used && j in g.used && At(mapping, a) in Anc(k, At(mapping, j)) ensures a in Anc(g, j) {
      assert At(mapping, j) in h.used;
      if At(mapping, a) !in Anc(h, At(mapping, j)) {
        assert At(mapping, i) in Anc(h, At(mapping, j));
        assert Covered(h, At(mapping, a), Image(mapping, ps));
        var q :| q in Image(mapping, ps) && At(mapping, a) in Anc(h, q);
        var p :| p in ps && q == At(mapping, p);
        assert a in Anc(g, p);
        assert Anc(g, i) <= Anc(g, j);
        assert Anc(g, p) <= Anc(g, j);
      }
    }
  }

  lemma {:induction false} EdgesStep(h: Graph, k: Graph, mapping: seq<nat>, parents: map<nat, set<nat>>, i: nat,
      ps: set<nat>)
    requires WellFormed(h) && At(mapping, i) in h.used && Image(mapping, ps) <= h.used
    requires forall x :: x in parents ==> At(mapping, x) in h.used
    requires EdgesIn(h, mapping, parents) && Extended(h, k, Image(mapping, ps), At(mapping, i))
    ensures EdgesIn(k, mapping, parents[i := ps])
  {
    ExtendedIsClosure(h, k, Image(mapping, ps), At(mapping, i), _ => {});
    var more := parents[i := ps];
    forall x, p | x in more && p in more[x] ensures At(mapping, p) in Anc(k, At(mapping, x)) {
      if x == i {
        assert At(mapping, p) in Image(mapping, ps);
      } else {
        assert At(mapping, p) in Anc(h, At(mapping, x));
      }
    }
  }

  ghost predicate RemapArguments(g: Graph, mapping: seq<nat>, posRange: nat) {
    && |mapping| == |g.entries| && InjectiveOn(mapping, g.used)
    && (forall i :: i in g.used ==> At(mapping, i) < posRange)
    && if g.used == {} then posRange == 0 else posRange > 0 && posRange - 1 in Image(mapping, g.used)
  }

  /** The work of the remapping constructor: positions are renamed by `mapping`, dependencies are
      rebuilt from the reduced parents alone. */
  method Remap(g: Graph, mapping: seq<nat>, posRange: nat) returns (h: Graph)
    requires WellFormed(g) && Acyclic(g) && RemapArguments(g, mapping, posRange)
    ensures WellFormed(h) && TightRange(h) && |h.entries| == posRange && IsRemapped(g, h, mapping)
  {
    hide *;
    h := PlaceTransactions(g, mapping, posRange);
    ghost var parentsOf: map<nat, set<nat>> := map[];
    NoEdges(g, h, mapping);
    var rest := g.used;
    while rest != {}
      invariant rest <= g.used && parentsOf.Keys == g.used - rest
      invariant WellFormed(h) && |h.entries| == posRange && RemapProgress(g, h, mapping, parentsOf)
      decreases |rest|
    {
      var i := First(rest);
      h, parentsOf := AddMappedParents(h, g, mapping, i, parentsOf);
      rest := rest - {i};
    }
    EdgesComplete(g, h, mapping, parentsOf);
    RemapTightRange(g, h, mapping);
  }

  lemma {:induction false} NoEdges(g: Graph, h: Graph, mapping: seq<nat>)
    requires SamePlaces(g, h, mapping) && RemapSound(g, h, mapping)
    ensures RemapProgress(g, h, mapping, map[])
  {
  }

  lemma {:induction false} RemapTightRange(g: Graph, h: Graph, mapping: seq<nat>)
    requires RemapArguments(g, mapping, |h.entries|) && SamePlaces(g, h, mapping)
    ensures TightRange(h)
  {
  }

  ghost predicate RemapProgress(g: Graph, h: Graph, mapping: seq<nat>, parents: map<nat, set<nat>>) {
    && SamePlaces(g, h, mapping) && RemapSound(g, h, mapping) && EdgesIn(h, mapping, parents)
    && parents.Keys <= g.used && forall k :: k in parents ==> Generates(g, parents[k], k)
  }

  lemma {:induction false} EdgesComplete(g: Graph, h: Graph, mapping: seq<nat>, parents: map<nat, set<nat>>)
    requires WellFormed(g) && Acyclic(g) && WellFormed(h)
    requires RemapProgress(g, h, mapping, parents) && parents.Keys == g.used
    ensures IsRemapped(g, h, mapping)
  {
    forall a, i | a in g.used && i in g.used && a in Anc(g, i) ensures At(mapping, a) in Anc(h, At(mapping, i)) {
      EdgesGenerate(g, h, mapping, parents, a, i);
    }
  }

  /** One step of the second half: the dependencies of position `i`. */
  method AddMappedParents(h: Graph, g: Graph, mapping: seq<nat>, i: nat, ghost parentsOf: map<nat, set<nat>>)
    returns (k: Graph, ghost nextOf: map<nat, set<nat>>)
    requires WellFormed(g) && i in g.used && WellFormed(h) && RemapProgress(g, h, mapping, parentsOf)
    ensures WellFormed(k) && |k.entries| == |h.entries|
    ensures RemapProgress(g, k, mapping, nextOf) && nextOf.Keys == parentsOf.Keys + {i}
  {
    hide *;
    var ps := GetReducedParents(g, i);
    var parents := Image(mapping, ps);
    ProgressPlaces(g, h, mapping, parentsOf);
    MappedParentsUsed(g, h, mapping, i, ps);
    k := AddEdges(h, parents, At(mapping, i));
    nextOf := parentsOf[i := ps];
    ProgressStep(g, h, k, mapping, parentsOf, i, ps);
  }

  lemma {:induction false} MappedParentsUsed(g: Graph, h: Graph, mapping: seq<nat>, i: nat, ps: set<nat>)
    requires WellFormed(g) && i in g.used && Generates(g, ps, i) && h.used == Image(mapping, g.used)
    ensures Image(mapping, ps) <= h.used && At(mapping, i) in h.used && ps <= Anc(g, i)
  {
  }

  lemma {:induction false} ProgressStep(g: Graph, h: Graph, k: Graph, mapping: seq<nat>, parents: map<nat, set<nat>>,
      i: nat, ps: set<nat>)
    requires WellFormed(g) && WellFormed(h) && RemapProgress(g, h, mapping, parents)
    requires i in g.used && Generates(g, ps, i) && Extended(h, k, Image(mapping, ps), At(mapping, i))
    ensures RemapProgress(g, k, mapping, parents[i := ps]) && |k.entries| == |h.entries|
  {
    hide WellFormed, Extended, Generates, SamePlaces, RemapSound, EdgesIn;
    ProgressPlaces(g, h, mapping, parents);
    MappedParentsUsed(g, h, mapping, i, ps);
    RemapSoundStep(g, h, k, mapping, ps, i);
    EdgesStep(h, k, mapping, parents, i, ps);
    PlacesStep(g, h, k, mapping, Image(mapping, ps), At(mapping, i));
  }

  lemma {:induction false} ProgressPlaces(g: Graph, h: Graph, mapping: seq<nat>, parents: map<nat, set<nat>>)
    requires RemapProgress(g, h, mapping, parents)
    ensures h.used == Image(mapping, g.used) && forall x :: x in parents ==> At(mapping, x) in h.used
  {
  }

  lemma {:induction false} PlacesStep(g: Graph, h: Graph, k: Graph, mapping: seq<nat>, parents: set<nat>, child: nat)
    requires SamePlaces(g, h, mapping) && Extended(h, k, parents, child)
    ensures SamePlaces(g, k, mapping) && |k.entries| == |h.entries|
  {
    assert forall x :: x in g.used ==> At(mapping, x) in h.used;
  }

  /** First half of the remapping constructor: every transaction at its new position, unconnected. */
  method PlaceTransactions(g: Graph, mapping: seq<nat>, posRange: nat) returns (h: Graph)
    requires WellFormed(g) && RemapArguments(g, mapping, posRange)
    ensures WellFormed(h) && |h.entries| == posRange && SamePlaces(g, h, mapping) && RemapSound(g, h, mapping)
  {
    hide *;
    h := Graph(seq(posRange, _ => Entry(EMPTY, {}, {})), {});
    var rest := g.used;
    assert g.used - rest == {};
    NothingPlaced(g, h, mapping);
    while rest != {}
      invariant rest <= g.used && |h.entries| == posRange && PlacedSoFar(g, h, mapping, g.used - rest)
      decreases |rest|
    {
      var i := First(rest);
      var newIdx := At(mapping, i);
      ghost var before := h;
      NewPlace(g, mapping, posRange, i);
      h := Graph(h.entries[newIdx := Placed(FeeRate(g, i), newIdx)], h.used + {newIdx});
      PlaceStep(g, before, h, mapping, posRange, g.used - rest, i);
      assert g.used - (rest - {i}) == (g.used - rest) + {i};
      rest := rest - {i};
    }
    assert g.used - rest == g.used;
    PlacedWellFormed(g, h, mapping);
  }

  ghost predicate PlacedSoFar(g: Graph, h: Graph, mapping: seq<nat>, done: set<nat>) {
    && h.used == Image(mapping, done)
    && forall i :: i in done ==>
        At(mapping, i) < |h.entries| && h.entries[At(mapping, i)] == Placed(FeeRate(g, i), At(mapping, i))
  }

  lemma {:induction false} NothingPlaced(g: Graph, h: Graph, mapping: seq<nat>)
    requires h.used == {}
    ensures PlacedSoFar(g, h, mapping, {})
  {
  }

  lemma {:induction false} NewPlace(g: Graph, mapping: seq<nat>, posRange: nat, i: nat)
    requires RemapArguments(g, mapping, posRange) && i in g.used
    ensures At(mapping, i) < posRange
  {
  }

  lemma {:induction false} PlaceStep(g: Graph, h: Graph, k: Graph, mapping: seq<nat>, posRange: nat, done: set<nat>,
      i: nat)
    requires RemapArguments(g, mapping, posRange) && |h.entries| == posRange && i in g.used && done <= g.used
    requires i !in done
    requires PlacedSoFar(g, h, mapping, done) && At(mapping, i) < posRange
    requires k == Graph(h.entries[At(mapping, i) := Placed(FeeRate(g, i), At(mapping, i))], h.used + {At(mapping, i)})
    ensures PlacedSoFar(g, k, mapping, done + {i})
  {
    ImageAdd(mapping, done, i);
  }

  lemma {:induction false} ImageAdd(mapping: seq<nat>, s: set<nat>, i: nat)
    ensures Image(mapping, s + {i}) == Image(mapping, s) + {At(mapping, i)}
  {
  }

  function Placed(feerate: FeeFrac, i: nat): Entry {
    Entry(feerate, {i}, {i})
  }

  lemma {:induction false} PlacedWellFormed(g: Graph, h: Graph, mapping: seq<nat>)
    requires RemapArguments(g, mapping, |h.entries|) && WellFormed(g) && PlacedSoFar(g, h, mapping, g.used)
    ensures WellFormed(h) && SamePlaces(g, h, mapping) && RemapSound(g, h, mapping)
  {
    forall x | x in h.used ensures x < |h.entries| && Anc(h, x) == {x} && Desc(h, x) == {x} {
      var i :| i in g.used && At(mapping, i) == x;
    }
  }

  // ---- Connected components ----

  /** Within `todo`, nothing in `s` is related to anything outside `s`. */
  ghost predicate Separated(g: Graph, s: set<nat>, todo: set<nat>) {
    s <= todo && forall x :: x in s ==> Anc(g, x) * todo <= s && Desc(g, x) * todo <= s
  }

  /** Every separated set that contains the first position of `todo` contains `s`. */
  ghost predicate InComponent(g: Graph, s: set<nat>, todo: set<nat>)
    requires todo != {}
  {
    forall c {:trigger Separated(g, c, todo)} :: Separated(g, c, todo) && First(todo) in c ==> s <= c
  }

  /** The connected component of the first position of `todo`: the least separated set that
      contains it. */
  method FindConnectedComponent(g: Graph, todo: set<nat>) returns (ret: set<nat>)
    requires WellFormed(g) && todo <= g.used
    ensures Separated(g, ret, todo)
    ensures todo != {} ==> First(todo) in ret && InComponent(g, ret, todo)
  {
    if todo == {} { return {}; }
    var toAdd := {First(todo)};
    ret := {};
    var more := true;
    while more
      invariant toAdd <= todo && ret <= todo && (First(todo) in toAdd || First(todo) in ret)
      invariant InComponent(g, ret, todo) && InComponent(g, toAdd, todo)
      invariant forall x :: x in ret - toAdd ==> Anc(g, x) * todo <= ret && Desc(g, x) * todo <= ret
      invariant ret == {} || toAdd <= ret
      invariant more || (toAdd == {} && ret != {})
      decreases todo - ret, more
    {
      var before := ret;
      var near := Neighbours(g, toAdd, todo);
      ret := ret + near;
      assert First(todo) in toAdd ==> First(todo) in Anc(g, First(todo));
      toAdd := ret - before;
      more := toAdd != {};
    }
  }

  /** Everything in `todo` related to some element of `toAdd`. */
  method Neighbours(g: Graph, toAdd: set<nat>, todo: set<nat>) returns (ret: set<nat>)
    requires todo != {} && InComponent(g, toAdd, todo)
    ensures ret <= todo && InComponent(g, ret, todo)
    ensures forall x :: x in toAdd ==> Anc(g, x) * todo <= ret && Desc(g, x) * todo <= ret
  {
    ret := {};
    var rest := toAdd;
    while rest != {}
      invariant rest <= toAdd && InComponent(g, ret * todo, todo)
      invariant forall x :: x in toAdd - rest ==> Anc(g, x) <= ret && Desc(g, x) <= ret
      decreases |rest|
    {
      var add := First(rest);
      ret := ret + Desc(g, add) + Anc(g, add);
      rest := rest - {add};
    }
    ret := ret * todo;
  }
}
