/** The stronger guarantees of a pass: connected chunks, optimality on trees, and moved leaves
    (src/cluster_linearize.h, PostLinearize, "Postlinearization guarantees"). */
module PassTheorems {
  import opened FeeFracs
  import opened Sums
  import opened DepGraphs
  import opened DepGraphObjects
  import opened Chunking
  import opened Diagrams
  import opened GroupPasses

  // ---- Chunks are connected ----

  /** `s` cannot be split into two parts with no dependency between them. */
  ghost predicate Connected(g: Graph, s: set<nat>) {
    forall x {:trigger Separated(g, x, s)} :: Separated(g, x, s) && x != {} ==> x == s
  }

  ghost predicate AllConnected(g: Graph, groups: seq<seq<nat>>) {
    forall k {:trigger groups[k]} :: 0 <= k < |groups| ==> Connected(g, Elems(groups[k]))
  }

  /** A connected group that depends on a connected group forms a connected group with it. */
  lemma {:induction false} MergeConnected(g: Graph, p: seq<nat>, c: seq<nat>)
    requires WellFormed(g) && Elems(p) <= g.used && Elems(c) <= g.used
    requires Connected(g, Elems(p)) && Connected(g, Elems(c)) && Depends(g, c, p)
    ensures Connected(g, Elems(p + c))
  {
    var sp, sc := Elems(p), Elems(c);
    ElemsConcat(p, c);
    var x :| x in c && Anc(g, x) * Elems(p) != {};
    var y :| y in Anc(g, x) * Elems(p);
    assert x in sc && x in Desc(g, y);
    forall s | Separated(g, s, sp + sc) && s != {} ensures s == sp + sc {
      assert Separated(g, s * sp, sp);
      assert Separated(g, s * sc, sc);
      assert s * sp == {} || s * sp == sp;
      assert s * sc == {} || s * sc == sc;
      assert s == s * sp + s * sc;
      assert y in s <==> x in s by {
        assert y in s ==> x in Desc(g, y) * (sp + sc);
        assert x in s ==> y in Anc(g, x) * (sp + sc);
      }
      assert y in s * sp <==> y in s;
      assert x in s * sc <==> x in s;
    }
  }

  lemma {:induction false} InsertConnected(g: Graph, groups: seq<seq<nat>>, c: seq<nat>)
    requires WellFormed(g) && AllConnected(g, groups) && Connected(g, Elems(c))
    requires Elems(Flatten(groups)) <= g.used && Elems(c) <= g.used
    ensures AllConnected(g, Insert(g, groups, c))
    decreases |groups|
  {
    if groups != [] {
      hide Connected, Depends, WellFormed, Elems;
      var n := |groups| - 1;
      var front, last := groups[..n], groups[n];
      assert groups == front + [last];
      FlattenSnoc(front, last);
      ElemsConcat(Flatten(front), last);
      if Higher(SeqRate(g, c), SeqRate(g, last)) {
        if Depends(g, c, last) {
          ElemsConcat(last, c);
          MergeConnected(g, last, c);
          InsertConnected(g, front, last + c);
        } else {
          InsertConnected(g, front, c);
        }
      }
    }
  }

  lemma {:induction false} SingletonConnected(g: Graph, x: nat)
    ensures Connected(g, Elems([x]))
  {
    assert Elems([x]) == {x};
    forall s | Separated(g, s, {x}) && s != {} ensures s == {x} {
      var y :| y in s;
    }
  }

  lemma {:induction false} InsertAllConnected(g: Graph, groups: seq<seq<nat>>, lin: seq<nat>)
    requires WellFormed(g) && AllConnected(g, groups) && Distinct(Flatten(groups) + lin)
    requires Elems(Flatten(groups) + lin) <= g.used
    ensures AllConnected(g, InsertAll(g, groups, lin))
    decreases |lin|
  {
    if lin != [] {
      hide AllConnected, Connected, WellFormed, Elems, Distinct, Insert;
      var c, rest := [lin[0]], lin[1..];
      assert lin == c + rest;
      assert Flatten(groups) + lin == (Flatten(groups) + c) + rest;
      DistinctSplit(Flatten(groups) + c, rest);
      ElemsConcat(Flatten(groups) + c, rest);
      ElemsConcat(Flatten(groups), c);
      SingletonConnected(g, lin[0]);
      InsertConnected(g, groups, c);
      InsertElems(g, groups, c);
      var next := Insert(g, groups, c);
      DistinctConcat(Flatten(next), rest);
      ElemsConcat(Flatten(next), rest);
      InsertAllConnected(g, next, rest);
    }
  }

  /** After a pass every chunk of the linearization is connected. */
  lemma {:induction false} PassConnected(g: Graph, lin: seq<nat>, todo: set<nat>)
    requires WellFormed(g) && PositiveSizes(g) && todo <= g.used && Linearizes(g, lin, todo)
    ensures AllConnected(g, Chunks(g, Flatten(Pass(g, lin))))
  {
    assert Flatten([]) + lin == lin;
    PassGuarantees(g, lin, todo);
    InsertAllConnected(g, [], lin);
  }

  // ---- Trees are linearized optimally ----

  /** The descendants of every transaction form a chain, as they do when every transaction has at
      most one child. */
  ghost predicate DescendantsChain(g: Graph) {
    forall x, y, z {:trigger y in Desc(g, x), z in Desc(g, x)} ::
      x in g.used && y in Desc(g, x) && z in Desc(g, x) ==> y in Anc(g, z) || z in Anc(g, y)
  }

  /** If every transaction has at most one reduced child, descendants form chains. */
  lemma {:induction false} OneChildChain(g: Graph, children: map<nat, set<nat>>)
    requires WellFormed(g) && Acyclic(g) && children.Keys == g.used
    requires forall x :: x in g.used ==> Generates(Mirror(g), children[x], x) && |children[x]| <= 1
    ensures DescendantsChain(g)
  {
    MirrorWellFormed(g);
    forall x, y, z | x in g.used && y in Desc(g, x) && z in Desc(g, x) ensures y in Anc(g, z) || z in Anc(g, y) {
      ChainFrom(g, children, x, y, z);
    }
  }

  lemma {:induction false} ChainFrom(g: Graph, children: map<nat, set<nat>>, x: nat, y: nat, z: nat)
    requires WellFormed(g) && WellFormed(Mirror(g)) && Acyclic(Mirror(g)) && children.Keys == g.used
    requires forall x :: x in g.used ==> Generates(Mirror(g), children[x], x) && |children[x]| <= 1
    requires x in g.used && y in Desc(g, x) && z in Desc(g, x)
    ensures y in Anc(g, z) || z in Anc(g, y)
    decreases |Desc(g, x)|
  {
    hide Generates, WellFormed, Acyclic;
    if y == x || z == x {
      RelatedBothWays(g, x, y);
      RelatedBothWays(g, x, z);
    } else {
      var c := TowardsDescendant(g, children[x], x, y);
      var d := TowardsDescendant(g, children[x], x, z);
      SingleElement(children[x], c, d);
      ChainFrom(g, children, c, y, z);
    }
  }

  lemma {:induction false} RelatedBothWays(g: Graph, x: nat, y: nat)
    requires WellFormed(g) && x in g.used && y in Desc(g, x)
    ensures x in Anc(g, y)
  {
  }

  lemma {:induction false} TowardsDescendant(g: Graph, children: set<nat>, x: nat, y: nat) returns (c: nat)
    requires WellFormed(g) && WellFormed(Mirror(g)) && Acyclic(Mirror(g)) && Generates(Mirror(g), children, x)
    requires x in g.used && y in Desc(g, x) && y != x
    ensures c in children && c in g.used && y in Desc(g, c) && |Desc(g, c)| < |Desc(g, x)|
  {
    var m := Mirror(g);
    assert Covered(m, y, children);
    c :| c in children && y in Anc(m, c);
    AncestorCount(m, c, x);
  }

  lemma {:induction false} SingleElement(s: set<nat>, a: nat, b: nat)
    requires |s| <= 1 && a in s && b in s
    ensures a == b
  {
    if a != b { SubsetCard({a, b}, s); }
  }

  /** All transactions of the group are ancestors of its last one. */
  ghost predicate Rooted(g: Graph, c: seq<nat>) {
    c != [] && Elems(c) <= Anc(g, c[|c| - 1])
  }

  /** No topologically valid part of the group beats both nothing and the whole. */
  ghost predicate PartTight(g: Graph, c: seq<nat>) {
    forall l: FeeFrac, t {:trigger SetSum(Slope(g, l), t)} :: l.size > 0 && Closed(g, t, Elems(c)) ==>
      SetSum(Slope(g, l), t) <= 0 || SetSum(Slope(g, l), t) <= SeqSum(Slope(g, l), c)
  }

  /** Where `p` is not heavy, no topologically valid part of `c` without its root is heavy. */
  ghost predicate LightBelow(g: Graph, c: seq<nat>, p: seq<nat>)
    requires c != []
  {
    forall l: FeeFrac, t {:trigger SetSum(Slope(g, l), t)} ::
      l.size > 0 && Closed(g, t, Elems(c)) && c[|c| - 1] !in t && SeqSum(Slope(g, l), p) <= 0 ==>
          SetSum(Slope(g, l), t) <= 0
  }

  ghost predicate TreeGroups(g: Graph, groups: seq<seq<nat>>) {
    forall k {:trigger groups[k]} :: 0 <= k < |groups| ==> Rooted(g, groups[k]) && PartTight(g, groups[k])
  }

  /** The group being inserted, relative to the last group before it. */
  ghost predicate TreeReady(g: Graph, groups: seq<seq<nat>>, c: seq<nat>) {
    && TreeGroups(g, groups) && Rooted(g, c) && PartTight(g, c)
    && (groups != [] ==> LightBelow(g, c, groups[|groups| - 1]))
  }

  lemma {:induction false} MergeRooted(g: Graph, p: seq<nat>, c: seq<nat>)
    requires WellFormed(g) && DescendantsChain(g) && Elems(p) <= g.used && Elems(c) <= g.used
    requires Rooted(g, p) && Rooted(g, c) && Depends(g, c, p) && Ordered(g, p + c)
    ensures Rooted(g, p + c)
  {
    var r, i := p[|p| - 1], c[|c| - 1];
    var x :| x in c && Anc(g, x) * Elems(p) != {};
    var y :| y in Anc(g, x) * Elems(p);
    assert x in Elems(c) && i in Elems(c) && r in Elems(p);
    assert y in Anc(g, i) && y in Anc(g, r);
    assert i in Desc(g, y) && r in Desc(g, y);
    assert (p + c)[|p| - 1] == r && (p + c)[|p| + |c| - 1] == i;
    assert i !in Anc(g, r);
    assert r in Anc(g, i);
    ElemsConcat(p, c);
    assert (p + c)[|p + c| - 1] == i;
  }

  lemma {:induction false} MergePartBound(g: Graph, p: seq<nat>, c: seq<nat>, l: FeeFrac, t: set<nat>)
    requires PartTight(g, p) && p != [] && c != [] && LightBelow(g, c, p) && PartTight(g, c)
    requires Elems(p) !! Elems(c) && l.size > 0
    requires Closed(g, t, Elems(p + c)) && c[|c| - 1] !in t
    ensures SeqSum(Slope(g, l), p) > 0 && SeqSum(Slope(g, l), c) > 0 ==>
              SetSum(Slope(g, l), t) <= SeqSum(Slope(g, l), p) + SeqSum(Slope(g, l), c)
    ensures SeqSum(Slope(g, l), p) <= 0 ==> SetSum(Slope(g, l), t) <= 0
  {
    hide SetSum, SeqSum, Elems;
    var w := Slope(g, l);
    var sp, sc := Elems(p), Elems(c);
    ElemsConcat(p, c);
    assert t == t * sp + t * sc;
    SetSumUnion(w, t * sp, t * sc);
    assert Closed(g, t * sp, sp) && Closed(g, t * sc, sc);
    assert SetSum(w, t * sp) <= 0 || SetSum(w, t * sp) <= SeqSum(w, p);
    assert SetSum(w, t * sc) <= 0 || SetSum(w, t * sc) <= SeqSum(w, c);
    assert SeqSum(w, p) <= 0 ==> SetSum(w, t * sc) <= 0;
  }

  lemma {:induction false} RootedWhole(g: Graph, c: seq<nat>, t: set<nat>)
    requires Rooted(g, c) && Closed(g, t, Elems(c)) && c[|c| - 1] in t
    ensures t == Elems(c)
  {
    assert Anc(g, c[|c| - 1]) * Elems(c) == Elems(c);
  }

  lemma {:induction false} MergePartTight(g: Graph, p: seq<nat>, c: seq<nat>)
    requires PositiveSizes(g) && Elems(p) <= g.used && Elems(c) <= g.used && Distinct(p + c) && p != [] && c != []
    requires PartTight(g, p) && PartTight(g, c) && LightBelow(g, c, p) && Rooted(g, p + c)
    requires Higher(SeqRate(g, c), SeqRate(g, p))
    ensures PartTight(g, p + c)
  {
    var m := p + c;
    DistinctSplit(p, c);
    SeqSizePositive(g, p);
    SeqSizePositive(g, c);
    forall l: FeeFrac, t | l.size > 0 && Closed(g, t, Elems(m))
      ensures SetSum(Slope(g, l), t) <= 0 || SetSum(Slope(g, l), t) <= SeqSum(Slope(g, l), m)
    {
      var w := Slope(g, l);
      assert m[|m| - 1] == c[|c| - 1];
      SeqSumConcat(w, p, c);
      if m[|m| - 1] in t {
        RootedWhole(g, m, t);
        SeqSumElems(w, m);
      } else {
        MergePartBound(g, p, c, l, t);
        SeqExcess(g, l, p);
        SeqExcess(g, l, c);
        if SeqSum(w, p) > 0 { SteeperTrans(l, SeqRate(g, p), SeqRate(g, c)); }
      }
    }
  }

  /** Going on to a steeper group keeps the group being inserted light below it. */
  lemma {:induction false} LightBelowSteeper(g: Graph, c: seq<nat>, p: seq<nat>, q: seq<nat>)
    requires PositiveSizes(g) && Elems(p) <= g.used && Elems(q) <= g.used && p != [] && q != [] && c != []
    requires LightBelow(g, c, p) && !Higher(SeqRate(g, p), SeqRate(g, q))
    ensures LightBelow(g, c, q)
  {
    SeqSizePositive(g, p);
    SeqSizePositive(g, q);
    forall l: FeeFrac, t | l.size > 0 && Closed(g, t, Elems(c)) && c[|c| - 1] !in t && SeqSum(Slope(g, l), q) <= 0
      ensures SetSum(Slope(g, l), t) <= 0
    {
      SeqExcess(g, l, p);
      SeqExcess(g, l, q);
      FlatterTrans(l, SeqRate(g, q), SeqRate(g, p));
    }
  }

  lemma {:induction false} MergeLightBelow(g: Graph, p: seq<nat>, c: seq<nat>)
    requires p != [] && c != [] && Distinct(p + c) && PartTight(g, p) && PartTight(g, c) && LightBelow(g, c, p)
    ensures LightBelow(g, p + c, p)
  {
    var m := p + c;
    DistinctSplit(p, c);
    assert m[|m| - 1] == c[|c| - 1];
    forall l: FeeFrac, t | l.size > 0 && Closed(g, t, Elems(m)) && m[|m| - 1] !in t && SeqSum(Slope(g, l), p) <= 0
      ensures SetSum(Slope(g, l), t) <= 0
    {
      MergePartBound(g, p, c, l, t);
    }
  }

  lemma {:induction false} LastTwo(g: Graph, groups: seq<seq<nat>>, c: seq<nat>)
    requires Ready(g, groups, c) && |groups| > 1
    ensures var n := |groups| - 1; var q := groups[..n][n - 1];
            q != [] && Elems(q) <= g.used && !Higher(SeqRate(g, groups[n]), SeqRate(g, q))
  {
    var n := |groups| - 1;
    var j := n - 1;
    SegInFlatten(groups, j);
    assert !Higher(SeqRate(g, groups[j + 1]), SeqRate(g, groups[j]));
  }

  lemma {:induction false} MergeTreeReady(g: Graph, groups: seq<seq<nat>>, c: seq<nat>)
    requires WellFormed(g) && DescendantsChain(g) && Ready(g, groups, c) && TreeReady(g, groups, c) && groups != []
    requires var last := groups[|groups| - 1];
             Higher(SeqRate(g, c), SeqRate(g, last)) && Depends(g, c, last) && Ordered(g, last + c)
                 && Distinct(last + c)
    ensures TreeReady(g, groups[..|groups| - 1], groups[|groups| - 1] + c)
  {
    hide Ready, PartTight, LightBelow, Depends, WellFormed, DescendantsChain, PositiveSizes, Rising, Ordered, Distinct,
        Elems, Rooted;
    var n := |groups| - 1;
    var front, last := groups[..n], groups[n];
    TreeShapes(g, groups, c);
    MergeRooted(g, last, c);
    MergePartTight(g, last, c);
    if front != [] {
      LastTwo(g, groups, c);
      MergeLightBelow(g, last, c);
      LightBelowSteeper(g, last + c, last, front[n - 1]);
    }
  }

  lemma {:induction false} TreeShapes(g: Graph, groups: seq<seq<nat>>, c: seq<nat>)
    requires Ready(g, groups, c) && groups != []
    ensures var last := groups[|groups| - 1];
            Elems(last) <= g.used && Elems(c) <= g.used && last != [] && c != [] && PositiveSizes(g)
  {
    SplitLast(g, groups, c);
  }

  lemma {:induction false} SwapTreeReady(g: Graph, groups: seq<seq<nat>>, c: seq<nat>)
    requires Ready(g, groups, c) && TreeReady(g, groups, c) && groups != []
    ensures TreeReady(g, groups[..|groups| - 1], c)
  {
    hide Ready, PartTight, LightBelow, PositiveSizes, Rising, Elems, Rooted;
    var n := |groups| - 1;
    TreeShapes(g, groups, c);
    if n > 0 {
      LastTwo(g, groups, c);
      LightBelowSteeper(g, c, groups[n], groups[..n][n - 1]);
    }
  }

  lemma {:induction false} InsertTree(g: Graph, groups: seq<seq<nat>>, c: seq<nat>)
    requires WellFormed(g) && DescendantsChain(g) && Ready(g, groups, c) && TreeReady(g, groups, c)
    requires Ordered(g, Flatten(groups) + c) && Distinct(Flatten(groups) + c)
    ensures TreeGroups(g, Insert(g, groups, c))
    decreases |groups|
  {
    hide Ready, TreeReady, TreeGroups, Depends, WellFormed, DescendantsChain, Ordered, Distinct, Elems, Chunked, Rising;
    if groups == [] {
      assert groups + [c] == [c];
      TreeAppend(g, groups, c);
    } else {
      var n := |groups| - 1;
      var front, last := groups[..n], groups[n];
      SplitLast(g, groups, c);
      var f := Flatten(front);
      assert Flatten(groups) + c == f + (last + c);
      if !Higher(SeqRate(g, c), SeqRate(g, last)) {
        TreeAppend(g, groups, c);
      } else if Depends(g, c, last) {
        OrderedParts(g, f, last + c);
        DistinctSplit(f, last + c);
        MergeReady(g, groups, c);
        MergeTreeReady(g, groups, c);
        InsertTree(g, front, last + c);
      } else {
        SwapReady(g, groups, c);
        SwapTreeReady(g, groups, c);
        OrderedSkip(g, f, last, c);
        ExchangeElems(f, last, c);
        DistinctSplit(f + c, last);
        InsertTree(g, front, c);
        TreeSnoc(g, Insert(g, front, c), groups, c);
      }
    }
  }

  lemma {:induction false} TreeAppend(g: Graph, groups: seq<seq<nat>>, c: seq<nat>)
    requires TreeReady(g, groups, c)
    ensures TreeGroups(g, groups + [c])
  {
  }

  lemma {:induction false} TreeSnoc(g: Graph, a: seq<seq<nat>>, groups: seq<seq<nat>>, c: seq<nat>)
    requires TreeGroups(g, a) && groups != [] && TreeReady(g, groups, c)
    ensures TreeGroups(g, a + [groups[|groups| - 1]])
  {
  }

  lemma {:induction false} OrderedParts(g: Graph, a: seq<nat>, b: seq<nat>)
    requires Ordered(g, a + b)
    ensures Ordered(g, a) && Ordered(g, b)
  {
    var c := a + b;
    assert forall i :: 0 <= i < |a| ==> c[i] == a[i];
    assert forall i :: 0 <= i < |b| ==> c[|a| + i] == b[i];
  }

  lemma {:induction false} OrderedSkip(g: Graph, a: seq<nat>, p: seq<nat>, c: seq<nat>)
    requires Ordered(g, a + (p + c))
    ensures Ordered(g, a + c)
  {
    var s, r := a + (p + c), a + c;
    forall i, j | 0 <= i < j < |r| ensures r[j] !in Anc(g, r[i]) {
      var i', j' := if i < |a| then i else i + |p|, if j < |a| then j else j + |p|;
      assert s[i'] == r[i] && s[j'] == r[j];
    }
  }

  lemma {:induction false} SingleTreeReady(g: Graph, groups: seq<seq<nat>>, x: nat)
    requires TreeGroups(g, groups) && WellFormed(g) && x in g.used
    ensures TreeReady(g, groups, [x])
  {
    assert Elems([x]) == {x};
    forall l: FeeFrac, t | l.size > 0 && Closed(g, t, {x})
      ensures (SetSum(Slope(g, l), t) <= 0 || SetSum(Slope(g, l), t) <= SeqSum(Slope(g, l), [x]))
      ensures (x !in t ==> SetSum(Slope(g, l), t) <= 0)
    {
      if x in t {
        assert t == {x};
        SetSumSingleton(Slope(g, l), x);
        SeqSumSingle(Slope(g, l), x);
      } else {
        assert t == {};
        SetSumEmpty(Slope(g, l));
      }
    }
  }

  lemma {:induction false} InsertAllTree(g: Graph, groups: seq<seq<nat>>, lin: seq<nat>)
    requires WellFormed(g) && DescendantsChain(g) && PositiveSizes(g) && Chunked(g, groups) && TreeGroups(g, groups)
    requires Linearizes(g, Flatten(groups) + lin, Elems(Flatten(groups) + lin))
    requires Elems(Flatten(groups) + lin) <= g.used
    ensures TreeGroups(g, InsertAll(g, groups, lin))
    decreases |lin|
  {
    if lin != [] {
      hide TreeGroups, TreeReady, WellFormed, DescendantsChain, PositiveSizes, Chunked, Rising, Insert, Elems,
          Distinct, Ordered;
      var c, rest := [lin[0]], lin[1..];
      var s := Flatten(groups) + c;
      assert lin == c + rest;
      assert Flatten(groups) + lin == s + rest;
      var all := Elems(s + rest);
      SplitLinearizes(g, s, rest, all);
      ElemsConcat(s, rest);
      ElemsConcat(Flatten(groups), c);
      SingleRising(g, lin[0]);
      assert lin[0] in Elems(c) by { ElemOfSingle(lin[0]); }
      SingleTreeReady(g, groups, lin[0]);
      InsertTree(g, groups, c);
      InsertChunked(g, groups, c, EMPTY);
      InsertLinearizes(g, groups, c, Elems(s));
      var next := Insert(g, groups, c);
      ConcatLinearizes(g, Flatten(next), rest, Elems(s), all);
      InsertAllTree(g, next, rest);
    }
  }

  lemma {:induction false} ElemOfSingle(x: nat)
    ensures x in Elems([x])
  {
    assert [x][0] == x;
  }

  /** The weight of a topologically valid set is at most that of the heavy groups. */
  lemma {:induction false} TreeBound(g: Graph, groups: seq<seq<nat>>, s: set<nat>, l: FeeFrac)
    requires TreeGroups(g, groups) && Distinct(Flatten(groups)) && s <= Elems(Flatten(groups)) && l.size > 0
    requires Closed(g, s, Elems(Flatten(groups)))
    ensures SetSum(Slope(g, l), s) <= PositivePart(Slope(g, l), groups)
  {
    var w := Slope(g, l);
    if groups == [] {
      assert s == {};
      SetSumEmpty(w);
    } else {
      hide SetSum, SeqSum, Elems, Rooted;
      var first, rest := groups[0], Flatten(groups[1..]);
      DistinctSplit(first, rest);
      ElemsConcat(first, rest);
      var a, b := s * Elems(first), s * Elems(rest);
      assert s == a + b;
      SetSumUnion(w, a, b);
      assert Closed(g, a, Elems(first)) && Closed(g, b, Elems(rest));
      assert PartTight(g, groups[0]);
      assert SetSum(w, a) <= 0 || SetSum(w, a) <= SeqSum(w, first);
      TreeBound(g, groups[1..], b, l);
    }
  }

  /** If descendants form chains, a pass linearizes optimally. */
  lemma {:induction false} PassOptimalOnTrees(g: Graph, lin: seq<nat>, todo: set<nat>)
    requires WellFormed(g) && DescendantsChain(g) && PositiveSizes(g) && todo <= g.used && Linearizes(g, lin, todo)
    ensures Optimal(g, Flatten(Pass(g, lin)), todo)
  {
    hide TreeGroups, WellFormed, DescendantsChain, PositiveSizes, Chunked, InsertAll;
    assert Flatten([]) + lin == lin;
    NoGroups(g);
    InsertAllTree(g, [], lin);
    PassGuarantees(g, lin, todo);
    var groups := Pass(g, lin);
    forall l: FeeFrac, s | l.size > 0 && Closed(g, s, todo)
      ensures SetSum(Slope(g, l), s) <= MaxPrefix(Slope(g, l), Flatten(groups))
    {
      TreeBound(g, groups, s, l);
      ChunksEnvelope(g, groups, l);
    }
  }

  lemma {:induction false} NoGroups(g: Graph)
    ensures TreeGroups(g, []) && Chunked(g, [])
  {
  }
}
