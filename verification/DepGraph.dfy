/** Dependency graphs of transaction clusters (src/cluster_linearize.h, class DepGraph).

    `Graph` is the value a `const DepGraph&` denotes; `DepGraph` is the mutable object. Sets of
    positions (the SetType template parameter) are `set<nat>`, visited in increasing order. */
module DepGraphs {
  import opened FeeFracs
  import opened Sums

  datatype Entry = Entry(feerate: FeeFrac, ancestors: set<nat>, descendants: set<nat>)

  datatype Graph = Graph(entries: seq<Entry>, used: set<nat>)

  function Anc(g: Graph, i: nat): set<nat> {
    if i < |g.entries| then g.entries[i].ancestors else {}
  }

  function Desc(g: Graph, i: nat): set<nat> {
    if i < |g.entries| then g.entries[i].descendants else {}
  }

  function FeeRate(g: Graph, i: nat): FeeFrac {
    if i < |g.entries| then g.entries[i].feerate else EMPTY
  }

  /** The stored sets describe a preorder on the used positions, from both sides. */
  ghost predicate WellFormed(g: Graph) {
    && (forall i :: i in g.used ==> i < |g.entries|)
    && (forall i :: i in g.used ==> i in Anc(g, i) && Anc(g, i) <= g.used && Desc(g, i) <= g.used)
    && (forall i, j {:trigger i in Anc(g, j)} {:trigger j in Desc(g, i)} ::
          i in g.used && j in g.used ==> (i in Anc(g, j) <==> j in Desc(g, i)))
    && (forall i, j {:trigger j in Anc(g, i)} :: i in g.used && j in Anc(g, i) ==> Anc(g, j) <= Anc(g, i))
  }

  /** No unused positions at the end: |entries| is PositionRange(). */
  ghost predicate TightRange(g: Graph) {
    |g.entries| > 0 ==> |g.entries| - 1 in g.used
  }

  ghost predicate Acyclic(g: Graph) {
    forall i, j {:trigger j in Anc(g, i), i in Anc(g, j)} ::
      i in g.used && j in Anc(g, i) && i in Anc(g, j) ==> i == j
  }

  ghost predicate PositiveSizes(g: Graph) {
    forall i :: i in g.used ==> FeeRate(g, i).size > 0
  }

  /** What the linearization algorithms demand of a cluster. */
  ghost predicate Cluster(g: Graph) {
    WellFormed(g) && Acyclic(g) && PositiveSizes(g)
  }

  // ---- Aggregate feerates ----

  function FeeOf(g: Graph): Weight {
    (t: nat) => FeeRate(g, t).fee
  }

  function SizeOf(g: Graph): Weight {
    (t: nat) => FeeRate(g, t).size
  }

  /** The weight of a transaction relative to slope `l`. */
  function Slope(g: Graph, l: FeeFrac): Weight {
    (t: nat) => Excess(l, FeeRate(g, t))
  }

  ghost function SetRate(g: Graph, s: set<nat>): FeeFrac {
    FeeFrac(SetSum(FeeOf(g), s), SetSum(SizeOf(g), s))
  }

  function SeqRate(g: Graph, s: seq<nat>): FeeFrac {
    FeeFrac(SeqSum(FeeOf(g), s), SeqSum(SizeOf(g), s))
  }

  lemma {:induction false} SetRateRemove(g: Graph, s: set<nat>, x: nat)
    requires x in s
    ensures SetRate(g, s).fee == FeeRate(g, x).fee + SetRate(g, s - {x}).fee
    ensures SetRate(g, s).size == FeeRate(g, x).size + SetRate(g, s - {x}).size
  {
    SetSumRemove(FeeOf(g), s, x);
    SetSumRemove(SizeOf(g), s, x);
  }

  lemma {:induction false} SetExcess(g: Graph, l: FeeFrac, s: set<nat>)
    ensures Excess(l, SetRate(g, s)) == SetSum(Slope(g, l), s)
  {
    SeqExcess(g, l, Listing(s));
  }

  lemma {:induction false} SeqExcess(g: Graph, l: FeeFrac, s: seq<nat>)
    ensures Excess(l, SeqRate(g, s)) == SeqSum(Slope(g, l), s)
  {
    if s != [] {
      SeqExcess(g, l, s[1..]);
      ExcessPlus(l, FeeRate(g, s[0]), SeqRate(g, s[1..]));
    }
  }

  lemma {:induction false} SetSizePositive(g: Graph, s: set<nat>)
    requires PositiveSizes(g) && s <= g.used
    ensures SetRate(g, s).size >= 0
    ensures s != {} ==> SetRate(g, s).size > 0
  {
    SetSumSign(SizeOf(g), s);
  }

  lemma {:induction false} SeqSizePositive(g: Graph, s: seq<nat>)
    requires PositiveSizes(g) && Elems(s) <= g.used
    ensures SeqRate(g, s).size >= 0
    ensures s != [] ==> SeqRate(g, s).size > 0
  {
    if s != [] {
      assert s[0] in Elems(s) && Elems(s[1..]) <= Elems(s);
      SeqSizePositive(g, s[1..]);
    }
  }

  lemma {:induction false} SeqRateConcat(g: Graph, a: seq<nat>, b: seq<nat>)
    ensures SeqRate(g, a + b).fee == SeqRate(g, a).fee + SeqRate(g, b).fee
    ensures SeqRate(g, a + b).size == SeqRate(g, a).size + SeqRate(g, b).size
  {
    SeqSumConcat(FeeOf(g), a, b);
    SeqSumConcat(SizeOf(g), a, b);
  }

  lemma {:induction false} SeqRateElems(g: Graph, s: seq<nat>)
    requires Distinct(s)
    ensures SeqRate(g, s) == SetRate(g, Elems(s))
  {
    SeqSumElems(FeeOf(g), s);
    SeqSumElems(SizeOf(g), s);
  }

  lemma {:induction false} SetRateUnion(g: Graph, a: set<nat>, b: set<nat>)
    requires a !! b
    ensures SetRate(g, a + b).fee == SetRate(g, a).fee + SetRate(g, b).fee
    ensures SetRate(g, a + b).size == SetRate(g, a).size + SetRate(g, b).size
  {
    SetSumUnion(FeeOf(g), a, b);
    SetSumUnion(SizeOf(g), a, b);
  }

  lemma {:induction false} SeqRateSingleton(g: Graph, x: nat)
    ensures SeqRate(g, [x]) == FeeRate(g, x)
  {
    SeqSumSingle(FeeOf(g), x);
    SeqSumSingle(SizeOf(g), x);
  }

  lemma {:induction false} SetRateSingleton(g: Graph, x: nat)
    ensures SetRate(g, {x}) == FeeRate(g, x)
  {
    SetSumSingleton(FeeOf(g), x);
    SetSumSingleton(SizeOf(g), x);
  }

  /** Aggregate feerate of a set, as the accumulation loop computes it. */
  method SumRate(g: Graph, elems: set<nat>) returns (r: FeeFrac)
    ensures r == SetRate(g, elems)
  {
    r := EMPTY;
    var rest := elems;
    SetSumEmpty(FeeOf(g));
    SetSumEmpty(SizeOf(g));
    while rest != {}
      invariant r.fee + SetRate(g, rest).fee == SetRate(g, elems).fee
      invariant r.size + SetRate(g, rest).size == SetRate(g, elems).size
      decreases |rest|
    {
      var pos := First(rest);
      SetRateRemove(g, rest, pos);
      r := FeeFrac(r.fee + FeeRate(g, pos).fee, r.size + FeeRate(g, pos).size);
      rest := rest - {pos};
    }
  }

  // ---- Topologically closed sets and linearizations ----

  /** `s` contains, with every element, all of its ancestors that are in `todo`. */
  ghost predicate Closed(g: Graph, s: set<nat>, todo: set<nat>) {
    s <= todo && forall x :: x in s ==> Anc(g, x) * todo <= s
  }

  /** No transaction is listed after one of its descendants. */
  ghost predicate Ordered(g: Graph, lin: seq<nat>) {
    forall i, j :: 0 <= i < j < |lin| ==> lin[j] !in Anc(g, lin[i])
  }

  /** `lin` lists exactly `todo`, every transaction after those of its ancestors it lists. */
  ghost predicate Linearizes(g: Graph, lin: seq<nat>, todo: set<nat>) {
    Distinct(lin) && Elems(lin) == todo && Ordered(g, lin)
  }

  lemma {:induction false} PrefixClosed(g: Graph, lin: seq<nat>, todo: set<nat>, k: nat)
    requires Linearizes(g, lin, todo) && k <= |lin|
    ensures Closed(g, Elems(lin[..k]), todo)
  {
    var s := Elems(lin[..k]);
    forall x, a | x in s && a in Anc(g, x) * todo ensures a in s {
      var i :| 0 <= i < k && lin[i] == x;
      assert a in Elems(lin);
      var j :| 0 <= j < |lin| && lin[j] == a;
      assert j <= i;
      assert lin[..k][j] == a;
    }
  }

  lemma {:induction false} ClosedUnion(g: Graph, a: set<nat>, b: set<nat>, todo: set<nat>)
    requires Closed(g, a, todo) && Closed(g, b, todo)
    ensures Closed(g, a + b, todo) && Closed(g, a * b, todo)
    ensures Closed(g, a - b, todo - b)
  {
  }

  lemma {:induction false} ClosedWithin(g: Graph, a: set<nat>, b: set<nat>, todo: set<nat>)
    requires Closed(g, b, todo) && Closed(g, a, todo - b)
    ensures Closed(g, a + b, todo)
  {
    forall x, y | x in a + b && y in Anc(g, x) * todo ensures y in a + b {
      if x in a && y !in b { assert y in Anc(g, x) * (todo - b); }
    }
  }

  lemma {:induction false} LinearizesShape(g: Graph, lin: seq<nat>)
    requires Linearizes(g, lin, g.used)
    ensures Distinct(lin) && Elems(lin) == g.used
  {
  }

  /** A linearization of a closed set followed by one of the rest linearizes the whole. */
  lemma {:induction false} ConcatLinearizes(g: Graph, a: seq<nat>, b: seq<nat>, s: set<nat>, todo: set<nat>)
    requires Closed(g, s, todo) && Linearizes(g, a, s) && Linearizes(g, b, todo - s)
    ensures Linearizes(g, a + b, todo)
  {
    var c := a + b;
    ElemsConcat(a, b);
    DistinctConcat(a, b);
    forall i, j | 0 <= i < j < |c| ensures c[j] !in Anc(g, c[i]) {
      if i < |a| && j >= |a| {
        assert c[i] in Elems(a) && c[j] in Elems(b);
      }
    }
  }

  lemma {:induction false} FilterLinearizes(g: Graph, lin: seq<nat>, todo: set<nat>, keep: set<nat>)
    requires Linearizes(g, lin, todo)
    ensures Linearizes(g, Filter(lin, keep), todo * keep)
  {
    FilterDistinct(lin, keep);
    FilterOrdered(g, lin, keep);
  }

  lemma {:induction false} FilterOrdered(g: Graph, lin: seq<nat>, keep: set<nat>)
    requires Ordered(g, lin)
    ensures Ordered(g, Filter(lin, keep))
  {
    if lin != [] {
      var tail := lin[1..];
      var rest := Filter(tail, keep);
      assert Ordered(g, tail);
      FilterOrdered(g, tail, keep);
      if lin[0] in keep {
        forall j | 0 <= j < |rest| ensures rest[j] !in Anc(g, lin[0]) {
          assert rest[j] in Elems(rest);
          assert rest[j] in Elems(tail);
          var k :| 0 <= k < |tail| && tail[k] == rest[j];
          assert lin[k + 1] == rest[j];
        }
        OrderedCons(g, lin[0], rest);
      }
    }
  }

  lemma {:induction false} OrderedCons(g: Graph, x: nat, rest: seq<nat>)
    requires Ordered(g, rest) && forall j :: 0 <= j < |rest| ==> rest[j] !in Anc(g, x)
    ensures Ordered(g, [x] + rest)
  {
  }

  // ---- AppendTopo ----

  /** The comparison AppendTopo sorts with: fewer ancestors first, then lower position. */
  predicate TopoBefore(g: Graph, a: nat, b: nat) {
    |Anc(g, a)| < |Anc(g, b)| || (|Anc(g, a)| == |Anc(g, b)| && a <= b)
  }

  ghost predicate TopoSorted(g: Graph, s: seq<nat>) {
    forall i, j {:trigger TopoBefore(g, s[i], s[j])} :: 0 <= i < j < |s| ==> TopoBefore(g, s[i], s[j])
  }

  ghost predicate TopoAllBefore(g: Graph, s: seq<nat>, rest: set<nat>) {
    forall i, x {:trigger TopoBefore(g, s[i], x)} :: 0 <= i < |s| && x in rest ==> TopoBefore(g, s[i], x)
  }

  method TopoFirst(g: Graph, s: set<nat>) returns (x: nat)
    requires s != {}
    ensures x in s && forall y :: y in s ==> TopoBefore(g, x, y)
  {
    x := First(s);
    var rest := s - {x};
    while rest != {}
      invariant rest < s && x in s
      invariant forall y :: y in s && y !in rest ==> TopoBefore(g, x, y)
      decreases |rest|
    {
      var y := First(rest);
      if !TopoBefore(g, x, y) { x := y; }
      rest := rest - {y};
    }
  }

  method TopoSort(g: Graph, select: set<nat>) returns (sorted: seq<nat>)
    ensures Distinct(sorted) && Elems(sorted) == select && TopoSorted(g, sorted)
  {
    sorted := [];
    var rest := select;
    while rest != {}
      invariant rest <= select && Elems(sorted) == select - rest && Distinct(sorted)
      invariant TopoAllBefore(g, sorted, rest) && TopoSorted(g, sorted)
      decreases |rest|
    {
      var x := TopoFirst(g, rest);
      TopoSnoc(g, sorted, rest, x);
      sorted := sorted + [x];
      rest := rest - {x};
      assert Elems(sorted) == select - rest;
    }
  }

  lemma {:induction false} TopoSnoc(g: Graph, s: seq<nat>, rest: set<nat>, x: nat)
    requires Distinct(s) && Elems(s) !! rest && x in rest
    requires TopoAllBefore(g, s, rest) && TopoSorted(g, s) && forall y :: y in rest ==> TopoBefore(g, x, y)
    ensures Distinct(s + [x]) && Elems(s + [x]) == Elems(s) + {x}
    ensures TopoAllBefore(g, s + [x], rest - {x}) && TopoSorted(g, s + [x])
  {
    var t := s + [x];
    assert x !in Elems(s);
    ElemsConcat(s, [x]);
    forall i, j | 0 <= i < j < |t| ensures TopoBefore(g, t[i], t[j]) {
      if j < |s| { assert TopoBefore(g, s[i], s[j]); } else { assert TopoBefore(g, s[i], x); }
    }
    forall i, y | 0 <= i < |t| && y in rest - {x} ensures TopoBefore(g, t[i], y) {
      if i < |s| { assert TopoBefore(g, s[i], y); }
    }
  }

  /** Append the transactions of `select` in a topologically valid order. */
  method AppendTopo(g: Graph, list: seq<nat>, select: set<nat>) returns (r: seq<nat>)
    requires WellFormed(g) && Acyclic(g) && select <= g.used
    ensures |list| <= |r| && r[..|list|] == list
    ensures Linearizes(g, r[|list|..], select) && TopoSorted(g, r[|list|..])
  {
    var sorted := TopoSort(g, select);
    TopoSortLinearizes(g, sorted, select);
    r := list + sorted;
    assert r[|list|..] == sorted;
  }

  lemma {:induction false} TopoSortLinearizes(g: Graph, s: seq<nat>, select: set<nat>)
    requires WellFormed(g) && Acyclic(g) && select <= g.used
    requires Distinct(s) && Elems(s) == select
    requires TopoSorted(g, s)
    ensures Linearizes(g, s, select)
  {
    forall i, j | 0 <= i < j < |s| ensures s[j] !in Anc(g, s[i]) {
      assert s[i] in Elems(s) && s[j] in Elems(s);
      assert TopoBefore(g, s[i], s[j]);
      if s[j] in Anc(g, s[i]) { AncestorCount(g, s[j], s[i]); }
    }
  }

  lemma {:induction false} AncestorCount(g: Graph, a: nat, b: nat)
    requires WellFormed(g) && Acyclic(g) && b in g.used && a in Anc(g, b) && a != b
    ensures Anc(g, a) < Anc(g, b) && |Anc(g, a)| < |Anc(g, b)|
  {
    assert Anc(g, a) <= Anc(g, b);
    assert b in Anc(g, b) && b !in Anc(g, a);
    SubsetCard(Anc(g, a), Anc(g, b));
  }

  // ---- Reduced parents and children ----

  /** Reversing time: ancestors and descendants trade places and fees are negated. */
  function Mirror(g: Graph): (m: Graph)
    ensures |m.entries| == |g.entries| && m.used == g.used
    ensures forall i: nat :: Anc(m, i) == Desc(g, i) && Desc(m, i) == Anc(g, i)
    ensures forall i: nat :: FeeRate(m, i) == FeeFrac(-FeeRate(g, i).fee, FeeRate(g, i).size)
  {
    Graph(seq(|g.entries|, i requires 0 <= i < |g.entries| => var e := g.entries[i];
                                                              Entry(FeeFrac(-e.feerate.fee, e.feerate.size),
                                                                  e.descendants, e.ancestors)), g.used)
  }

  lemma {:induction false} MirrorWellFormed(g: Graph)
    requires WellFormed(g)
    ensures WellFormed(Mirror(g))
    ensures Acyclic(g) ==> Acyclic(Mirror(g))
    ensures PositiveSizes(g) ==> PositiveSizes(Mirror(g))
  {
    var m := Mirror(g);
    forall i, j | i in m.used && j in Anc(m, i) ensures Anc(m, j) <= Anc(m, i) {
      forall k | k in Anc(m, j) ensures k in Anc(m, i) {
        assert j in g.used && k in g.used;
        assert i in Anc(g, j) && j in Anc(g, k);
      }
    }
    if Acyclic(g) {
      forall i, j | i in m.used && j in Anc(m, i) && i in Anc(m, j) ensures i == j {
        assert j in g.used && i in Anc(g, j) && j in Anc(g, i);
      }
    }
  }

  /** No element of `s` is an ancestor of another. */
  ghost predicate Antichain(g: Graph, s: set<nat>) {
    forall p, q {:trigger p in Anc(g, q)} :: p in s && q in s && p in Anc(g, q) ==> p == q
  }

  ghost predicate Covered(g: Graph, a: nat, s: set<nat>) {
    exists p :: p in s && a in Anc(g, p)
  }

  /** Every strict ancestor of `i` is an ancestor of some element of `s`. */
  ghost predicate Generates(g: Graph, s: set<nat>, i: nat) {
    s <= Anc(g, i) - {i} && forall a {:trigger Covered(g, a, s)} :: a in Anc(g, i) - {i} ==> Covered(g, a, s)
  }

  lemma {:induction false} DropAncestors(g: Graph, s: set<nat>, i: nat, p: nat)
    requires WellFormed(g) && i in g.used && Generates(g, s, i) && p in s
    ensures Generates(g, s - Anc(g, p) + {p}, i)
  {
    var t := s - Anc(g, p) + {p};
    forall a | a in Anc(g, i) - {i} ensures Covered(g, a, t) {
      assert Covered(g, a, s);
      var q :| q in s && a in Anc(g, q);
      assert q in t || (q in Anc(g, p) && p in g.used);
    }
  }

  lemma {:induction false} AllGenerate(g: Graph, i: nat)
    requires WellFormed(g) && i in g.used
    ensures Generates(g, Anc(g, i) - {i}, i)
  {
    var s := Anc(g, i) - {i};
    forall a | a in s ensures Covered(g, a, s) { assert a in Anc(g, a); }
  }

  method GetReducedParents(g: Graph, i: nat) returns (parents: set<nat>)
    requires WellFormed(g) && i in g.used
    ensures Antichain(g, parents) && Generates(g, parents, i)
  {
    parents := Anc(g, i) - {i};
    var rest := parents;
    AllGenerate(g, i);
    while rest != {}
      invariant rest <= Anc(g, i) - {i}
      invariant Generates(g, parents, i)
      invariant parents <= Anc(g, i) - {i}
      invariant forall p, q {:trigger p in Anc(g, q)} ::
                  p in parents && q in parents && q !in rest && p in Anc(g, q) ==> p == q
      decreases |rest|
    {
      var parent := First(rest);
      if parent in parents {
        DropAncestors(g, parents, i, parent);
        parents := parents - Anc(g, parent) + {parent};
      }
      rest := rest - {parent};
    }
  }

  /** On an acyclic graph the reduced parents are the one smallest set generating the ancestors:
      every other generating set contains them. */
  lemma {:induction false} ReducedParentsMinimal(g: Graph, i: nat, parents: set<nat>, other: set<nat>)
    requires WellFormed(g) && Acyclic(g) && i in g.used
    requires Antichain(g, parents) && Generates(g, parents, i) && Generates(g, other, i)
    ensures parents <= other
  {
    forall r | r in parents ensures r in other {
      assert Covered(g, r, other);
      var x :| x in other && r in Anc(g, x);
      assert Covered(g, x, parents);
      var r' :| r' in parents && x in Anc(g, r');
      assert r' in g.used && r in Anc(g, r');
    }
  }

  method GetReducedChildren(g: Graph, i: nat) returns (children: set<nat>)
    requires WellFormed(g) && i in g.used
    ensures Antichain(Mirror(g), children) && Generates(Mirror(g), children, i)
  {
    MirrorWellFormed(g);
    children := GetReducedParents(Mirror(g), i);
  }
}
