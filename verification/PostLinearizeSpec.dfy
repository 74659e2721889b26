/** Both passes of PostLinearize together, and its documented guarantees
    (src/cluster_linearize.h, PostLinearize). */
module PostLinearizeSpec {
  import opened FeeFracs
  import opened Sums
  import opened DepGraphs
  import opened Chunking
  import opened Diagrams
  import opened GroupPasses
  import opened PassTheorems

  /** The back-to-front pass: a pass over the reversed linearization with time mirrored. */
  ghost function Backward(g: Graph, lin: seq<nat>): seq<nat> {
    Reverse(Flatten(Pass(Mirror(g), Reverse(lin))))
  }

  ghost function Forward(g: Graph, lin: seq<nat>): seq<nat> {
    Flatten(Pass(g, lin))
  }

  ghost function PostLinearized(g: Graph, lin: seq<nat>): seq<nat> {
    Forward(g, Backward(g, lin))
  }

  // ---- Mirroring ----

  function Opposite(l: FeeFrac): FeeFrac {
    FeeFrac(-l.fee, l.size)
  }

  lemma {:induction false} MirrorMirror(g: Graph)
    ensures Mirror(Mirror(g)) == g
  {
    assert Mirror(Mirror(g)).entries == g.entries;
  }

  lemma {:induction false} MirrorSlope(g: Graph, l: FeeFrac)
    ensures forall x: nat :: Slope(Mirror(g), Opposite(l))(x) == -Slope(g, l)(x)
  {
    forall x: nat ensures Excess(Opposite(l), FeeRate(Mirror(g), x)) == -Excess(l, FeeRate(g, x)) {
      var f := FeeRate(g, x);
      assert (-f.fee) * l.size == -(f.fee * l.size);
      assert (-l.fee) * f.size == -(l.fee * f.size);
    }
  }

  /** The heaviest prefix of a linearization, seen from the mirrored one. */
  lemma {:induction false} MirrorMaxPrefix(g: Graph, l: FeeFrac, lin: seq<nat>)
    ensures MaxPrefix(Slope(g, l), Reverse(lin)) == MaxPrefix(Slope(Mirror(g), Opposite(l)), lin)
            + SeqSum(Slope(g, l), lin)
  {
    MirrorSlope(g, l);
    MaxPrefixReverse(Slope(Mirror(g), Opposite(l)), Slope(g, l), Reverse(lin));
    ReverseReverse(lin);
    SeqSumReverse(Slope(g, l), lin);
  }

  lemma {:induction false} MirrorLinearizes(g: Graph, lin: seq<nat>, todo: set<nat>)
    requires WellFormed(g) && todo <= g.used && Linearizes(g, lin, todo)
    ensures Linearizes(Mirror(g), Reverse(lin), todo)
  {
    var r, n := Reverse(lin), |lin|;
    ReverseElems(lin);
    forall i, j | 0 <= i < j < |r| ensures r[j] !in Anc(Mirror(g), r[i]) {
      ReverseAt(lin, i);
      ReverseAt(lin, j);
      assert lin[n - 1 - i] in Elems(lin) && lin[n - 1 - j] in Elems(lin);
      assert lin[n - 1 - i] !in Anc(g, lin[n - 1 - j]);
    }
  }

  lemma {:induction false} MirrorAsGood(g: Graph, a: seq<nat>, b: seq<nat>)
    requires AsGood(Mirror(g), a, b) && Distinct(a) && Distinct(b) && Elems(a) == Elems(b)
    ensures AsGood(g, Reverse(a), Reverse(b))
  {
    forall l: FeeFrac | l.size > 0 ensures MaxPrefix(Slope(g, l), Reverse(a)) >= MaxPrefix(Slope(g, l), Reverse(b)) {
      MirrorMaxPrefix(g, l, a);
      MirrorMaxPrefix(g, l, b);
      SeqSumPermutation(Slope(g, l), a, b);
      var o := Opposite(l);
      assert MaxPrefix(Slope(Mirror(g), o), a) >= MaxPrefix(Slope(Mirror(g), o), b);
    }
  }

  lemma {:induction false} MirrorOptimal(g: Graph, lin: seq<nat>, todo: set<nat>)
    requires WellFormed(g) && todo <= g.used && Optimal(Mirror(g), lin, todo) && Distinct(lin) && Elems(lin) == todo
    ensures Optimal(g, Reverse(lin), todo)
  {
    forall l: FeeFrac, s | l.size > 0 && Closed(g, s, todo)
      ensures SetSum(Slope(g, l), s) <= MaxPrefix(Slope(g, l), Reverse(lin))
    {
      var c, o := todo - s, Opposite(l);
      ComplementClosed(g, s, todo);
      assert SetSum(Slope(Mirror(g), o), c) <= MaxPrefix(Slope(Mirror(g), o), lin);
      MirrorSlope(g, l);
      SetSumNegated(Slope(Mirror(g), o), Slope(g, l), c);
      SetSumSplit(Slope(g, l), todo, s);
      assert todo * s == s;
      SeqSumElems(Slope(g, l), lin);
      MirrorMaxPrefix(g, l, lin);
    }
  }

  lemma {:induction false} ComplementClosed(g: Graph, s: set<nat>, todo: set<nat>)
    requires WellFormed(g) && todo <= g.used && Closed(g, s, todo)
    ensures Closed(Mirror(g), todo - s, todo)
  {
    var m := Mirror(g);
    forall x, a | x in todo - s && a in Anc(m, x) * todo ensures a in todo - s {
      assert a in Desc(g, x);
      assert x in Anc(g, a);
      assert a in s ==> x in Anc(g, a) * todo;
    }
  }

  // ---- The guarantees ----

  lemma {:induction false} BackwardGuarantees(g: Graph, lin: seq<nat>, todo: set<nat>)
    requires WellFormed(g) && PositiveSizes(g) && todo <= g.used && Linearizes(g, lin, todo)
    ensures Linearizes(g, Backward(g, lin), todo) && AsGood(g, Backward(g, lin), lin)
    ensures DescendantsChain(Mirror(g)) ==> Optimal(g, Backward(g, lin), todo)
  {
    hide WellFormed, PositiveSizes, AsGood, Optimal, DescendantsChain, Pass;
    var m := Mirror(g);
    MirrorFacts(g);
    MirrorLinearizes(g, lin, todo);
    var r := Reverse(lin);
    PassGuarantees(m, r, todo);
    var f := Flatten(Pass(m, r));
    MirrorLinearizes(m, f, todo);
    MirrorMirror(g);
    MirrorAsGood(g, f, r);
    ReverseReverse(lin);
    if DescendantsChain(m) {
      PassOptimalOnTrees(m, r, todo);
      MirrorOptimal(g, f, todo);
    }
  }

  lemma {:induction false} MirrorFacts(g: Graph)
    requires WellFormed(g) && PositiveSizes(g)
    ensures WellFormed(Mirror(g)) && PositiveSizes(Mirror(g)) && Mirror(g).used == g.used
  {
    MirrorWellFormed(g);
  }

  /** The result is a valid linearization with a diagram nowhere below the input's, its chunks are
      connected, and it is optimal whenever the graph has a tree shape of either kind. */
  lemma {:induction false} PostLinearizeGuarantees(g: Graph, lin: seq<nat>, todo: set<nat>)
    requires WellFormed(g) && PositiveSizes(g) && todo <= g.used && Linearizes(g, lin, todo)
    ensures Linearizes(g, PostLinearized(g, lin), todo) && AsGood(g, PostLinearized(g, lin), lin)
    ensures AllConnected(g, Chunks(g, PostLinearized(g, lin)))
    ensures DescendantsChain(g) || DescendantsChain(Mirror(g)) ==> Optimal(g, PostLinearized(g, lin), todo)
  {
    hide WellFormed, PositiveSizes, AsGood, Optimal, DescendantsChain, Linearizes, Backward, Pass, AllConnected;
    var b := Backward(g, lin);
    BackwardGuarantees(g, lin, todo);
    PassGuarantees(g, b, todo);
    PassConnected(g, b, todo);
    AsGoodTrans(g, PostLinearized(g, lin), b, lin);
    if DescendantsChain(g) {
      PassOptimalOnTrees(g, b, todo);
    } else if DescendantsChain(Mirror(g)) {
      AsGoodAsOptimal(g, PostLinearized(g, lin), b, todo);
    }
  }

  // ---- Moving a leaf to the end ----

  /** A group on its own, that nothing inserted later depends on, does not disturb the others. */
  lemma {:induction false} InsertBeside(m: Graph, front: seq<seq<nat>>, t: nat, back: seq<seq<nat>>, c: seq<nat>)
    returns (front': seq<seq<nat>>, back': seq<seq<nat>>)
    requires Ready(m, front + [[t]] + back, c) && forall x :: x in Flatten(back) + c ==> t !in Anc(m, x)
    ensures Insert(m, front + [[t]] + back, c) == front' + [[t]] + back'
    ensures Insert(m, front + back, c) == front' + back'
    ensures forall x :: x in Flatten(back') ==> x in Flatten(back) + c
    decreases |back|
  {
    hide Ready, Chunked, Rising, Higher, SeqRate, Depends, Flatten, Anc;
    var groups, base := front + [[t]] + back, front + back;
    if back == [] {
      assert groups == front + [[t]] && base == front && groups[..|front|] == front;
      AloneIndependent(m, c, t);
      if !Higher(SeqRate(m, c), SeqRate(m, [t])) {
        FrontStops(m, front, [t], c);
        front', back' := front, [c];
        FlattenSingle(c);
      } else {
        front', back' := Insert(m, front, c), [];
        assert front' + [[t]] + back' == front' + [[t]];
      }
    } else {
      var n := |back| - 1;
      var bk, last := back[..n], back[n];
      assert back == bk + [last];
      assert groups[..|groups| - 1] == front + [[t]] + bk && base[..|base| - 1] == front + bk;
      assert groups[|groups| - 1] == last && base[|base| - 1] == last;
      FlattenSnoc(bk, last);
      if !Higher(SeqRate(m, c), SeqRate(m, last)) {
        front', back' := front, back + [c];
        FlattenSnoc(back, c);
        assert groups + [c] == front' + [[t]] + back' && base + [c] == front' + back';
      } else if Depends(m, c, last) {
        MergeReady(m, groups, c);
        front', back' := InsertBeside(m, front, t, bk, last + c);
      } else {
        SwapReady(m, groups, c);
        var b;
        front', b := InsertBeside(m, front, t, bk, c);
        back' := b + [last];
        FlattenSnoc(b, last);
        assert (front' + [[t]] + b) + [last] == front' + [[t]] + back' && (front' + b) + [last] == front' + back';
      }
    }
  }

  lemma {:induction false} AloneIndependent(m: Graph, c: seq<nat>, t: nat)
    requires forall x :: x in c ==> t !in Anc(m, x)
    ensures !Depends(m, c, [t])
  {
    forall x | x in c ensures Anc(m, x) * Elems([t]) == {} {
      assert Elems([t]) == {t};
    }
  }

  lemma {:induction false} FrontStops(m: Graph, front: seq<seq<nat>>, p: seq<nat>, c: seq<nat>)
    requires Ready(m, front + [p] + [], c) && !Higher(SeqRate(m, c), SeqRate(m, p))
    ensures Insert(m, front, c) == front + [c]
  {
    var groups := front + [p] + [];
    if front != [] {
      var n := |front| - 1;
      assert groups[n] == front[n] && groups[n + 1] == p;
      ChunkedMonotone(m, groups, n, n + 1);
      SegInFlatten(groups, n);
      SegInFlatten(groups, n + 1);
      SeqSizePositive(m, groups[n]);
      SeqSizePositive(m, groups[n + 1]);
      SeqSizePositive(m, c);
      FlatterTrans(SeqRate(m, front[n]), SeqRate(m, p), SeqRate(m, c));
    }
  }

  lemma {:induction false} InsertAllBeside(m: Graph, front: seq<seq<nat>>, t: nat, back: seq<seq<nat>>, xs: seq<nat>)
    returns (front': seq<seq<nat>>, back': seq<seq<nat>>)
    requires PositiveSizes(m) && Chunked(m, front + [[t]] + back)
    requires Distinct(Flatten(front + [[t]] + back) + xs) && Elems(Flatten(front + [[t]] + back) + xs) <= m.used
    requires forall x :: x in Flatten(back) + xs ==> t !in Anc(m, x)
    ensures InsertAll(m, front + [[t]] + back, xs) == front' + [[t]] + back'
    ensures InsertAll(m, front + back, xs) == front' + back'
    decreases |xs|
  {
    if xs == [] {
      front', back' := front, back;
    } else {
      hide PositiveSizes, Chunked, Distinct, Elems, Insert, Rising;
      var groups := front + [[t]] + back;
      var c, rest := [xs[0]], xs[1..];
      assert xs == c + rest;
      assert Flatten(groups) + xs == (Flatten(groups) + c) + rest;
      DistinctSplit(Flatten(groups) + c, rest);
      ElemsConcat(Flatten(groups) + c, rest);
      ElemsConcat(Flatten(groups), c);
      SingleRising(m, xs[0]);
      var f, b := InsertBeside(m, front, t, back, c);
      InsertChunked(m, groups, c, EMPTY);
      InsertElems(m, groups, c);
      var next := Insert(m, groups, c);
      DistinctConcat(Flatten(next), rest);
      ElemsConcat(Flatten(next), rest);
      front', back' := InsertAllBeside(m, f, t, b, rest);
    }
  }

  lemma {:induction false} PositivePartConcat(w: Weight, a: seq<seq<nat>>, b: seq<seq<nat>>)
    ensures PositivePart(w, a + b) == PositivePart(w, a) + PositivePart(w, b)
  {
    if a == [] {
      assert a + b == b;
    } else {
      assert (a + b)[1..] == a[1..] + b;
      PositivePartConcat(w, a[1..], b);
    }
  }

  lemma {:induction false} SumBelowPositivePart(w: Weight, segs: seq<seq<nat>>)
    ensures SeqSum(w, Flatten(segs)) <= PositivePart(w, segs) && PositivePart(w, segs) >= 0
  {
    if segs != [] {
      SumBelowPositivePart(w, segs[1..]);
      SeqSumConcat(w, segs[0], Flatten(segs[1..]));
    }
  }

  /** A transaction sorted in among chunks is at least as good there as at the end. */
  lemma {:induction false} SortedInAsGood(m: Graph, front: seq<seq<nat>>, t: nat, back: seq<seq<nat>>)
    requires PositiveSizes(m) && Chunked(m, front + [[t]] + back) && Chunked(m, front + back)
    requires Elems(Flatten(front + [[t]] + back)) <= m.used && Elems(Flatten(front + back)) <= m.used
    ensures AsGood(m, Flatten(front + [[t]] + back), Flatten(front + back) + [t])
  {
    hide Chunked, PositiveSizes, Elems;
    forall l: FeeFrac | l.size > 0
      ensures MaxPrefix(Slope(m, l), Flatten(front + [[t]] + back)) >= MaxPrefix(Slope(m, l),
              Flatten(front + back) + [t])
    {
      var w := Slope(m, l);
      ChunksEnvelope(m, front + [[t]] + back, l);
      ChunksEnvelope(m, front + back, l);
      PositivePartConcat(w, front + [[t]], back);
      PositivePartConcat(w, front, [[t]]);
      PositivePartConcat(w, front, back);
      assert [[t]][1..] == [];
      assert PositivePart(w, [[t]]) == if SeqSum(w, [t]) > 0 then SeqSum(w, [t]) else 0;
      SumBelowPositivePart(w, front + back);
      MaxPrefixConcat(w, Flatten(front + back), [t]);
      SeqSumSingle(w, t);
      assert [t][1..] == [];
    }
  }

  /** A pass that meets transaction `t` first, on which nothing in `xs` depends, is as good as one
      that would have met it after `xs`. */
  lemma {:induction false} PassMovesBack(m: Graph, t: nat, xs: seq<nat>, ys: seq<nat>)
    requires PositiveSizes(m) && Distinct([t] + xs + ys) && Elems([t] + xs + ys) <= m.used
    requires forall x :: x in xs ==> t !in Anc(m, x)
    ensures AsGood(m, Flatten(Pass(m, [t] + xs + ys)), xs + [t] + ys)
  {
    hide PositiveSizes, Chunked, AsGood, Distinct, Elems;
    DistinctSplit([t] + xs, ys);
    DistinctSplit([t], xs);
    ElemsConcat([t] + xs, ys);
    ElemsConcat([t], xs);
    FlattenSingle([t]);
    StartAlone(m, t);
    var none: seq<seq<nat>> := [];
    assert [[t]] == none + [[t]] + none && Flatten([[t]]) + xs == [t] + xs && none + none == none;
    var f, b := InsertAllBeside(m, none, t, none, xs);
    var with, alone := f + [[t]] + b, f + b;
    PassSplits(m, t, xs, ys);
    assert Flatten([]) + xs == xs;
    InsertAllGuarantees(m, [[t]], xs);
    InsertAllGuarantees(m, [], xs);
    SortedInAsGood(m, f, t, b);
    AsGoodBefore(m, Flatten(alone), xs, [t]);
    AsGoodTrans(m, Flatten(with), Flatten(alone) + [t], xs + [t]);
    RotateElems(t, xs);
    DistinctConcat(Flatten(with), ys);
    ElemsConcat(Flatten(with), ys);
    InsertAllGuarantees(m, with, ys);
    AsGoodBefore(m, Flatten(with), xs + [t], ys);
    AsGoodTrans(m, Flatten(InsertAll(m, with, ys)), Flatten(with) + ys, xs + [t] + ys);
  }

  lemma {:induction false} StartAlone(m: Graph, t: nat)
    ensures Chunked(m, [[t]]) && Chunked(m, [])
  {
  }

  lemma {:induction false} PassSplits(m: Graph, t: nat, xs: seq<nat>, ys: seq<nat>)
    ensures Pass(m, [t] + xs + ys) == InsertAll(m, InsertAll(m, [[t]], xs), ys)
  {
    assert [t] + xs + ys == [t] + (xs + ys);
    InsertAllConcat(m, [], [t], xs + ys);
    assert InsertAll(m, [], [t]) == [[t]] by {
      assert [t][1..] == [];
      assert Insert(m, [], [t]) == [[t]];
      assert InsertAll(m, [[t]], []) == [[t]];
    }
    InsertAllConcat(m, [[t]], xs, ys);
  }

  lemma {:induction false} RotateElems(t: nat, xs: seq<nat>)
    requires Distinct([t] + xs)
    ensures Distinct(xs + [t]) && Elems(xs + [t]) == Elems([t] + xs)
  {
    hide Distinct, Elems;
    DistinctSplit([t], xs);
    DistinctConcat(xs, [t]);
    ElemsConcat(xs, [t]);
    ElemsConcat([t], xs);
  }

  /** `h` is `g` with the fee of `t` increased. */
  ghost predicate FeeRaised(g: Graph, h: Graph, t: nat) {
    && h.used == g.used && |h.entries| == |g.entries|
    && (forall x: nat :: Anc(h, x) == Anc(g, x) && Desc(h, x) == Desc(g, x))
    && (forall x: nat :: FeeRate(h, x).size == FeeRate(g, x).size && FeeRate(h, x).fee >= FeeRate(g, x).fee)
    && forall x: nat :: x != t ==> FeeRate(h, x) == FeeRate(g, x)
  }

  lemma {:induction false} RaisedHeavier(g: Graph, h: Graph, t: nat, l: FeeFrac, lin: seq<nat>)
    requires FeeRaised(g, h, t) && l.size > 0
    ensures MaxPrefix(Slope(h, l), lin) >= MaxPrefix(Slope(g, l), lin)
  {
    forall x: nat ensures Excess(l, FeeRate(h, x)) >= Excess(l, FeeRate(g, x)) {
      var d := FeeRate(h, x).fee - FeeRate(g, x).fee;
      assert FeeRate(h, x).fee * l.size == FeeRate(g, x).fee * l.size + d * l.size;
      assert d * l.size >= 0;
    }
    MaxPrefixCongruent(Slope(g, l), Slope(h, l), lin);
  }

  lemma {:induction false} LeafLast(g: Graph, a: seq<nat>, leaf: nat, b: seq<nat>, todo: set<nat>)
    requires WellFormed(g) && todo <= g.used && Linearizes(g, a + [leaf] + b, todo) && Desc(g, leaf) == {leaf}
    ensures Linearizes(g, a + b + [leaf], todo)
    ensures forall x :: x in b ==> leaf !in Desc(g, x)
  {
    var s := a + [leaf] + b;
    assert s == a + ([leaf] + b);
    SplitLinearizes(g, a, [leaf] + b, todo);
    var rest := todo - Elems(a);
    assert !Depends(g, b, [leaf]) by {
      assert Elems([leaf]) == {leaf};
      forall x | x in b ensures Anc(g, x) * Elems([leaf]) == {} {
        assert x in Elems([leaf] + b) by { ElemsConcat([leaf], b); }
        assert leaf in Elems([leaf] + b) by { ElemsConcat([leaf], b); }
        DistinctSplit([leaf], b);
        assert x != leaf by { assert x in Elems(b); }
        assert leaf !in Anc(g, x);
      }
    }
    SwapLinearizes(g, [leaf], b, rest);
    ConcatLinearizes(g, a, b + [leaf], Elems(a), todo);
    assert a + (b + [leaf]) == a + b + [leaf];
    forall x | x in b ensures leaf !in Desc(g, x) {
      var k :| 0 <= k < |b| && b[k] == x;
      assert s[|a|] == leaf && s[|a| + 1 + k] == x;
      assert x in Elems(s) && leaf in Elems(s);
    }
  }

  lemma {:induction false} BackwardMovesLeaf(h: Graph, a: seq<nat>, leaf: nat, b: seq<nat>, todo: set<nat>)
    requires WellFormed(h) && PositiveSizes(h) && todo <= h.used
    requires Linearizes(h, a + [leaf] + b, todo) && Desc(h, leaf) == {leaf}
    ensures AsGood(h, Backward(h, a + b + [leaf]), a + [leaf] + b)
  {
    hide PositiveSizes, AsGood, WellFormed, Pass, Desc;
    var m := Mirror(h);
    MirrorFacts(h);
    LeafLast(h, a, leaf, b, todo);
    var from, target := a + b + [leaf], a + [leaf] + b;
    var xs, ys := Reverse(b), Reverse(a);
    ReversedTriple(a, b, leaf);
    MirrorLinearizes(h, from, todo);
    assert Elems([leaf] + xs + ys) == todo && Distinct([leaf] + xs + ys);
    ReverseElems(b);
    forall x | x in xs ensures leaf !in Anc(m, x) {
      assert x in Elems(xs);
      assert x in b;
    }
    PassMovesBack(m, leaf, xs, ys);
    PassGuarantees(m, Reverse(from), todo);
    MirrorLinearizes(h, target, todo);
    MirrorAsGood(h, Flatten(Pass(m, Reverse(from))), xs + [leaf] + ys);
    ReverseReverse(target);
  }

  lemma {:induction false} ReversedTriple(a: seq<nat>, b: seq<nat>, leaf: nat)
    ensures Reverse(a + b + [leaf]) == [leaf] + Reverse(b) + Reverse(a)
    ensures Reverse(a + [leaf] + b) == Reverse(b) + [leaf] + Reverse(a)
  {
    assert Reverse([leaf]) == [leaf] by { assert [leaf][1..] == []; assert Reverse([]) == []; }
    ReverseConcat(a + b, [leaf]);
    ReverseConcat(a, b);
    ReverseConcat(a + [leaf], b);
    ReverseConcat(a, [leaf]);
  }

  lemma {:induction false} RaisedWellFormed(g: Graph, h: Graph, t: nat)
    requires Cluster(g) && FeeRaised(g, h, t)
    ensures WellFormed(h) && PositiveSizes(h)
    ensures forall lin, todo {:trigger Linearizes(g, lin, todo)} :: Linearizes(g, lin, todo) ==>
            Linearizes(h, lin, todo)
  {
  }

  /** Move a leaf to the end of a linearization, optionally raise its fee, and postlinearize: the
      resulting diagram is nowhere below the original one. */
  lemma {:induction false} MovedLeafGuarantee(g: Graph, h: Graph, a: seq<nat>, leaf: nat, b: seq<nat>)
    requires Cluster(g) && FeeRaised(g, h, leaf) && Linearizes(g, a + [leaf] + b, g.used) && Desc(g, leaf) == {leaf}
    ensures NowhereBelow(Rates(h, Chunks(h, PostLinearized(h, a + b + [leaf]))), Rates(g, Chunks(g, a + [leaf] + b)))
  {
    hide WellFormed, PositiveSizes, Acyclic, AsGood, Linearizes, Backward, Forward, AllConnected, Optimal,
        DescendantsChain, NowhereBelow;
    RaisedWellFormed(g, h, leaf);
    var first, moved := a + [leaf] + b, a + b + [leaf];
    LeafLast(h, a, leaf, b, h.used);
    BackwardMovesLeaf(h, a, leaf, b, h.used);
    BackwardGuarantees(h, moved, h.used);
    PassGuarantees(h, Backward(h, moved), h.used);
    ForwardIs(h, Backward(h, moved));
    AsGoodTrans(h, PostLinearized(h, moved), Backward(h, moved), first);
    RaisedDominance(g, h, leaf, PostLinearized(h, moved), first);
  }

  lemma {:induction false} ForwardIs(g: Graph, lin: seq<nat>)
    ensures Forward(g, lin) == Flatten(Pass(g, lin))
  {
  }

  lemma {:induction false} RaisedDominance(g: Graph, h: Graph, t: nat, a: seq<nat>, b: seq<nat>)
    requires PositiveSizes(g) && PositiveSizes(h) && FeeRaised(g, h, t)
    requires Linearizes(h, a, h.used) && Linearizes(g, b, g.used) && AsGood(h, a, b)
    ensures NowhereBelow(Rates(h, Chunks(h, a)), Rates(g, Chunks(g, b)))
  {
    hide MaxPrefix, Peak, NowhereBelow, Linearizes;
    var sa, sb := Chunks(h, a), Chunks(g, b);
    var ra, rb := Rates(h, sa), Rates(g, sb);
    LinearizesShape(h, a);
    LinearizesShape(g, b);
    ChunksChunked(h, a);
    ChunksChunked(g, b);
    RatesShape(h, sa);
    RatesShape(g, sb);
    RatesTotal(h, sa);
    RatesTotal(g, sb);
    SameTotalSize(g, h, t, a, b);
    forall l: FeeFrac | l.size > 0 ensures Peak(l, ra) >= Peak(l, rb) {
      PeakIsHeaviestPrefix(h, sa, l);
      PeakIsHeaviestPrefix(g, sb, l);
      assert MaxPrefix(Slope(h, l), a) >= MaxPrefix(Slope(h, l), b);
      RaisedHeavier(g, h, t, l, b);
    }
    PeakDominance(ra, rb);
  }

  lemma {:induction false} SameTotalSize(g: Graph, h: Graph, t: nat, a: seq<nat>, b: seq<nat>)
    requires FeeRaised(g, h, t) && Distinct(a) && Distinct(b) && Elems(a) == Elems(b)
    ensures SeqRate(h, a).size == SeqRate(g, b).size
  {
    SeqSumPermutation(SizeOf(h), a, b);
    SameWeights(SizeOf(h), SizeOf(g), b);
  }

  lemma {:induction false} SameWeights(v: Weight, w: Weight, s: seq<nat>)
    requires forall x :: x in s ==> v(x) == w(x)
    ensures SeqSum(v, s) == SeqSum(w, s)
  {
    if s != [] {
      assert s[0] in s;
      SameWeights(v, w, s[1..]);
    }
  }
}
