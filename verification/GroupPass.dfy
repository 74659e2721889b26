/** One pass of PostLinearize as a function on lists of groups, and what it guarantees
    (src/cluster_linearize.h, PostLinearize). */
module GroupPasses {
  import opened FeeFracs
  import opened Sums
  import opened DepGraphs
  import opened Chunking
  import opened Diagrams

  /** Some transaction of `c` has an ancestor in `p`. */
  ghost predicate Depends(g: Graph, c: seq<nat>, p: seq<nat>) {
    exists x :: x in c && Anc(g, x) * Elems(p) != {}
  }

  /** Append group `c`, then merge it with, or swap it past, the group before it for as long as
      that has lower feerate: merge if `c` depends on it, swap otherwise. */
  ghost function Insert(g: Graph, groups: seq<seq<nat>>, c: seq<nat>): seq<seq<nat>>
    decreases |groups|
  {
    if groups == [] then [c]
    else
      var n := |groups| - 1;
      var front, last := groups[..n], groups[n];
      if !Higher(SeqRate(g, c), SeqRate(g, last)) then groups + [c]
      else if Depends(g, c, last) then Insert(g, front, last + c)
      else Insert(g, front, c) + [last]
  }

  ghost function InsertAll(g: Graph, groups: seq<seq<nat>>, lin: seq<nat>): seq<seq<nat>>
    decreases |lin|
  {
    if lin == [] then groups else InsertAll(g, Insert(g, groups, [lin[0]]), lin[1..])
  }

  /** The groups at the end of a pass over `lin`. */
  ghost function Pass(g: Graph, lin: seq<nat>): seq<seq<nat>> {
    InsertAll(g, [], lin)
  }

  lemma {:induction false} InsertAllConcat(g: Graph, groups: seq<seq<nat>>, a: seq<nat>, b: seq<nat>)
    ensures InsertAll(g, groups, a + b) == InsertAll(g, InsertAll(g, groups, a), b)
    decreases |a|
  {
    if a == [] {
      assert a + b == b;
    } else {
      assert (a + b)[1..] == a[1..] + b;
      InsertAllConcat(g, Insert(g, groups, [a[0]]), a[1..], b);
    }
  }

  /** What an insertion step needs: groups in the shape of chunks, and a rising group to add. */
  ghost predicate Ready(g: Graph, groups: seq<seq<nat>>, c: seq<nat>) {
    && PositiveSizes(g) && Elems(Flatten(groups)) <= g.used && Elems(c) <= g.used
    && Chunked(g, groups) && c != [] && Rising(g, c)
  }

  lemma {:induction false} SplitLast(g: Graph, groups: seq<seq<nat>>, c: seq<nat>)
    requires Ready(g, groups, c) && groups != []
    ensures var n := |groups| - 1;
            groups == groups[..n] + [groups[n]] && Flatten(groups) == Flatten(groups[..n]) + groups[n]
            && Chunked(g, groups[..n]) && Elems(Flatten(groups[..n])) <= g.used && Elems(groups[n]) <= g.used
            && groups[n] != [] && Rising(g, groups[n])
  {
    var n := |groups| - 1;
    assert groups == groups[..n] + [groups[n]];
    FlattenSnoc(groups[..n], groups[n]);
    ElemsConcat(Flatten(groups[..n]), groups[n]);
  }

  lemma {:induction false} MergeReady(g: Graph, groups: seq<seq<nat>>, c: seq<nat>)
    requires Ready(g, groups, c) && groups != []
    requires Higher(SeqRate(g, c), SeqRate(g, groups[|groups| - 1]))
    ensures Ready(g, groups[..|groups| - 1], groups[|groups| - 1] + c)
  {
    var n := |groups| - 1;
    SplitLast(g, groups, c);
    MergeRising(g, groups[n], c);
    ElemsConcat(groups[n], c);
  }

  lemma {:induction false} SwapReady(g: Graph, groups: seq<seq<nat>>, c: seq<nat>)
    requires Ready(g, groups, c) && groups != []
    ensures Ready(g, groups[..|groups| - 1], c)
  {
    SplitLast(g, groups, c);
  }

  // ---- Groups stay in the shape of chunks ----

  /** The last group is at least as steep as `m`. */
  ghost predicate LastAbove(g: Graph, groups: seq<seq<nat>>, m: FeeFrac) {
    groups != [] ==> Excess(m, SeqRate(g, groups[|groups| - 1])) >= 0
  }

  lemma {:induction false} FrontAbove(g: Graph, groups: seq<seq<nat>>, c: seq<nat>, m: FeeFrac)
    requires Ready(g, groups, c) && groups != [] && m.size > 0 && LastAbove(g, groups, m)
    ensures LastAbove(g, groups[..|groups| - 1], m)
  {
    var n := |groups| - 1;
    if n > 0 {
      ChunkedMonotone(g, groups, n - 1, n);
      SegInFlatten(groups, n);
      SegInFlatten(groups, n - 1);
      SeqSizePositive(g, groups[n]);
      SeqSizePositive(g, groups[n - 1]);
      ExcessAntisymmetric(SeqRate(g, groups[n - 1]), SeqRate(g, groups[n]));
      SteeperTrans(m, SeqRate(g, groups[n]), SeqRate(g, groups[n - 1]));
      assert groups[..n][n - 1] == groups[n - 1];
    }
  }

  lemma {:induction false} AppendChunked(g: Graph, groups: seq<seq<nat>>, c: seq<nat>)
    requires Chunked(g, groups) && c != [] && Rising(g, c)
    requires LastAbove(g, groups, SeqRate(g, c))
    ensures Chunked(g, groups + [c])
  {
    if groups != [] {
      var last := SeqRate(g, groups[|groups| - 1]);
      ExcessAntisymmetric(SeqRate(g, c), last);
      assert !Higher(SeqRate(g, c), last);
    }
  }

  lemma {:induction false} InsertStep(g: Graph, groups: seq<seq<nat>>, c: seq<nat>)
    requires groups != []
    ensures var n := |groups| - 1;
            Insert(g, groups, c) == if !Higher(SeqRate(g, c), SeqRate(g, groups[n])) then groups + [c]
                                    else if Depends(g, c, groups[n]) then Insert(g, groups[..n], groups[n] + c)
                                    else Insert(g, groups[..n], c) + [groups[n]]
  {
    hide Higher, SeqRate, Depends;
  }

  lemma {:induction false} LastAboveIs(g: Graph, groups: seq<seq<nat>>, c: seq<nat>, m: FeeFrac)
    ensures LastAbove(g, groups + [c], m) <==> Excess(m, SeqRate(g, c)) >= 0
    ensures LastAbove(g, [], m)
  {
  }

  lemma {:induction false} InsertChunked(g: Graph, groups: seq<seq<nat>>, c: seq<nat>, m: FeeFrac)
    requires Ready(g, groups, c)
    ensures Insert(g, groups, c) != [] && Chunked(g, Insert(g, groups, c))
    ensures m.size > 0 && LastAbove(g, groups, m) && Excess(m, SeqRate(g, c)) >= 0 ==>
            LastAbove(g, Insert(g, groups, c), m)
    decreases |groups|
  {
    if groups == [] {
    } else {
      hide Ready, Insert, LastAbove, Depends, Elems, Rising, PositiveSizes, Higher, SeqRate, Excess, Chunked, Flatten;
      var n := |groups| - 1;
      var front, last := groups[..n], groups[n];
      InsertStep(g, groups, c);
      SplitLast(g, groups, c);
      LastAboveIs(g, front, last, m);
      if m.size > 0 && LastAbove(g, groups, m) { FrontAbove(g, groups, c, m); }
      if !Higher(SeqRate(g, c), SeqRate(g, last)) {
        StopChunked(g, groups, c);
        LastAboveIs(g, groups, c, m);
      } else if Depends(g, c, last) {
        MergeReady(g, groups, c);
        Balance(g, last, c, m);
        InsertChunked(g, front, last + c, m);
      } else {
        PastChunked(g, groups, c);
        LastAboveIs(g, Insert(g, front, c), last, m);
      }
    }
  }

  lemma {:induction false} StopChunked(g: Graph, groups: seq<seq<nat>>, c: seq<nat>)
    requires Ready(g, groups, c) && groups != [] && !Higher(SeqRate(g, c), SeqRate(g, groups[|groups| - 1]))
    ensures Chunked(g, groups + [c])
  {
    hide Chunked, Rising;
    ExcessAntisymmetric(SeqRate(g, c), SeqRate(g, groups[|groups| - 1]));
    AppendChunked(g, groups, c);
  }

  lemma {:induction false} PastChunked(g: Graph, groups: seq<seq<nat>>, c: seq<nat>)
    requires Ready(g, groups, c) && groups != [] && Higher(SeqRate(g, c), SeqRate(g, groups[|groups| - 1]))
    ensures Chunked(g, Insert(g, groups[..|groups| - 1], c) + [groups[|groups| - 1]])
    decreases |groups|, 0
  {
    hide Chunked, Rising, Insert, Flatten;
    var n := |groups| - 1;
    var front, last := groups[..n], groups[n];
    SplitLast(g, groups, c);
    SwapReady(g, groups, c);
    var r := SeqRate(g, last);
    SeqSizePositive(g, last);
    SelfAbove(g, groups);
    FrontAbove(g, groups, c, r);
    SteeperNow(g, c, last);
    InsertChunked(g, front, c, r);
    AppendChunked(g, Insert(g, front, c), last);
  }

  lemma {:induction false} SelfAbove(g: Graph, groups: seq<seq<nat>>)
    requires groups != []
    ensures LastAbove(g, groups, SeqRate(g, groups[|groups| - 1]))
  {
  }

  lemma {:induction false} SteeperNow(g: Graph, c: seq<nat>, last: seq<nat>)
    requires Higher(SeqRate(g, c), SeqRate(g, last))
    ensures Excess(SeqRate(g, last), SeqRate(g, c)) >= 0
  {
    ExcessAntisymmetric(SeqRate(g, c), SeqRate(g, last));
  }

  // ---- Topological order is kept ----

  lemma {:induction false} SplitLinearizes(g: Graph, a: seq<nat>, b: seq<nat>, todo: set<nat>)
    requires Linearizes(g, a + b, todo)
    ensures Closed(g, Elems(a), todo) && Linearizes(g, a, Elems(a)) && Linearizes(g, b, todo - Elems(a))
    ensures Elems(b) == todo - Elems(a)
  {
    var c := a + b;
    assert c[..|a|] == a;
    PrefixClosed(g, c, todo, |a|);
    DistinctSplit(a, b);
    ElemsConcat(a, b);
    assert forall i :: 0 <= i < |a| ==> c[i] == a[i];
    assert forall i :: 0 <= i < |b| ==> c[|a| + i] == b[i];
  }

  /** Two neighbouring groups, the second independent of the first, may trade places. */
  lemma {:induction false} SwapLinearizes(g: Graph, p: seq<nat>, c: seq<nat>, todo: set<nat>)
    requires Linearizes(g, p + c, todo) && !Depends(g, c, p)
    ensures Linearizes(g, c + p, todo) && Closed(g, Elems(c), todo)
  {
    SplitLinearizes(g, p, c, todo);
    forall x, a | x in Elems(c) && a in Anc(g, x) * todo ensures a in Elems(c) {
      assert x in c;
      assert a !in Elems(p) by {
        assert Anc(g, x) * Elems(p) == {};
        assert a in Elems(p) ==> a in Anc(g, x) * Elems(p);
      }
    }
    assert todo - Elems(c) == Elems(p);
    ConcatLinearizes(g, c, p, Elems(c), todo);
  }

  lemma {:induction false} InsertLinearizes(g: Graph, groups: seq<seq<nat>>, c: seq<nat>, todo: set<nat>)
    requires Linearizes(g, Flatten(groups) + c, todo)
    ensures Linearizes(g, Flatten(Insert(g, groups, c)), todo)
    decreases |groups|
  {
    if groups == [] {
      FlattenSingle(c);
      assert [] + c == c;
    } else {
      hide Linearizes, Depends, Closed;
      var n := |groups| - 1;
      var front, last := groups[..n], groups[n];
      assert groups == front + [last];
      FlattenSnoc(front, last);
      var f := Flatten(front);
      if !Higher(SeqRate(g, c), SeqRate(g, last)) {
        FlattenSnoc(groups, c);
      } else if Depends(g, c, last) {
        assert Flatten(groups) + c == f + (last + c);
        InsertLinearizes(g, front, last + c, todo);
      } else {
        assert Flatten(groups) + c == f + (last + c);
        SplitLinearizes(g, f, last + c, todo);
        SwapLinearizes(g, last, c, todo - Elems(f));
        ConcatLinearizes(g, f, c + last, Elems(f), todo);
        assert f + (c + last) == (f + c) + last;
        SplitLinearizes(g, f + c, last, todo);
        InsertLinearizes(g, front, c, Elems(f + c));
        ConcatLinearizes(g, Flatten(Insert(g, front, c)), last, Elems(f + c), todo);
        FlattenSnoc(Insert(g, front, c), last);
      }
    }
  }

  // ---- No diagram gets worse ----

  /** Moving the steeper of two neighbouring rising groups first is an improvement. */
  lemma {:induction false} SwapAsGood(g: Graph, p: seq<nat>, c: seq<nat>)
    requires PositiveSizes(g) && Elems(p) <= g.used && Elems(c) <= g.used && p != [] && c != []
    requires Rising(g, p) && Rising(g, c) && Higher(SeqRate(g, c), SeqRate(g, p))
    ensures AsGood(g, c + p, p + c)
  {
    SeqSizePositive(g, p);
    SeqSizePositive(g, c);
    forall l: FeeFrac | l.size > 0 ensures MaxPrefix(Slope(g, l), c + p) >= MaxPrefix(Slope(g, l), p + c) {
      var w := Slope(g, l);
      RisingTight(g, p, l);
      RisingTight(g, c, l);
      MaxPrefixAtLeastSum(w, p);
      MaxPrefixAtLeastSum(w, c);
      MaxPrefixConcat(w, p, c);
      MaxPrefixConcat(w, c, p);
      SeqExcess(g, l, p);
      SeqExcess(g, l, c);
      if Excess(l, SeqRate(g, p)) > 0 { SteeperTrans(l, SeqRate(g, p), SeqRate(g, c)); }
    }
  }

  /** Improving the beginning, with the same transactions, improves the whole. */
  lemma {:induction false} AsGoodBefore(g: Graph, a: seq<nat>, b: seq<nat>, q: seq<nat>)
    requires AsGood(g, a, b) && Distinct(a) && Distinct(b) && Elems(a) == Elems(b)
    ensures AsGood(g, a + q, b + q)
  {
    forall l: FeeFrac | l.size > 0 ensures MaxPrefix(Slope(g, l), a + q) >= MaxPrefix(Slope(g, l), b + q) {
      MaxPrefixConcat(Slope(g, l), a, q);
      MaxPrefixConcat(Slope(g, l), b, q);
      SeqSumPermutation(Slope(g, l), a, b);
    }
  }

  lemma {:induction false} InsertElems(g: Graph, groups: seq<seq<nat>>, c: seq<nat>)
    requires Distinct(Flatten(groups) + c)
    ensures Distinct(Flatten(Insert(g, groups, c)))
    ensures Elems(Flatten(Insert(g, groups, c))) == Elems(Flatten(groups) + c)
    decreases |groups|
  {
    if groups == [] {
      FlattenSingle(c);
      assert [] + c == c;
    } else {
      hide Depends, Distinct, Elems;
      var n := |groups| - 1;
      var front, last := groups[..n], groups[n];
      assert groups == front + [last];
      FlattenSnoc(front, last);
      var f := Flatten(front);
      if !Higher(SeqRate(g, c), SeqRate(g, last)) {
        FlattenSnoc(groups, c);
      } else if Depends(g, c, last) {
        assert Flatten(groups) + c == f + (last + c);
        InsertElems(g, front, last + c);
      } else {
        ExchangeElems(f, last, c);
        DistinctSplit(f + c, last);
        InsertElems(g, front, c);
        DistinctConcat(Flatten(Insert(g, front, c)), last);
        ElemsConcat(Flatten(Insert(g, front, c)), last);
        ElemsConcat(f + c, last);
        FlattenSnoc(Insert(g, front, c), last);
      }
    }
  }

  lemma {:induction false} ExchangeElems(f: seq<nat>, p: seq<nat>, c: seq<nat>)
    requires Distinct(f + p + c)
    ensures Distinct((f + c) + p) && Elems((f + c) + p) == Elems(f + p + c)
  {
    hide Distinct, Elems;
    DistinctSplit(f + p, c);
    DistinctSplit(f, p);
    ElemsConcat(f, p);
    ElemsConcat(f + p, c);
    DistinctConcat(f, c);
    ElemsConcat(f, c);
    DistinctConcat(f + c, p);
    ElemsConcat(f + c, p);
  }

  lemma {:induction false} InsertAsGood(g: Graph, groups: seq<seq<nat>>, c: seq<nat>)
    requires Ready(g, groups, c) && Distinct(Flatten(groups) + c)
    ensures AsGood(g, Flatten(Insert(g, groups, c)), Flatten(groups) + c)
    decreases |groups|
  {
    if groups == [] {
      FlattenSingle(c);
      assert [] + c == c;
      AsGoodRefl(g, c);
    } else {
      hide AsGood, Depends, Distinct, Elems, Chunked, Rising, PositiveSizes;
      var n := |groups| - 1;
      var front, last := groups[..n], groups[n];
      SplitLast(g, groups, c);
      var f := Flatten(front);
      assert Flatten(groups) + c == f + (last + c);
      if !Higher(SeqRate(g, c), SeqRate(g, last)) {
        FlattenSnoc(groups, c);
        AsGoodRefl(g, Flatten(groups) + c);
      } else if Depends(g, c, last) {
        MergeReady(g, groups, c);
        InsertAsGood(g, front, last + c);
      } else {
        SwapReady(g, groups, c);
        SwapAsGood(g, last, c);
        AsGoodAfter(g, f, c + last, last + c);
        assert f + (c + last) == (f + c) + last;
        ExchangeElems(f, last, c);
        DistinctSplit(f + c, last);
        InsertAsGood(g, front, c);
        InsertElems(g, front, c);
        var i := Flatten(Insert(g, front, c));
        AsGoodBefore(g, i, f + c, last);
        AsGoodTrans(g, i + last, (f + c) + last, f + (last + c));
        FlattenSnoc(Insert(g, front, c), last);
      }
    }
  }

  // ---- A whole pass ----

  lemma {:induction false} SingleRising(g: Graph, x: nat)
    ensures Rising(g, [x])
  {
  }

  /** Inserting the transactions of `lin` one by one yields chunk-shaped groups of the same
      transactions, at least as good as appending them. */
  lemma {:induction false} InsertAllGuarantees(g: Graph, groups: seq<seq<nat>>, lin: seq<nat>)
    requires PositiveSizes(g) && Chunked(g, groups)
    requires Distinct(Flatten(groups) + lin) && Elems(Flatten(groups) + lin) <= g.used
    ensures var r := InsertAll(g, groups, lin);
            Chunked(g, r) && Distinct(Flatten(r)) && Elems(Flatten(r)) == Elems(Flatten(groups) + lin)
            && AsGood(g, Flatten(r), Flatten(groups) + lin)
    decreases |lin|
  {
    if lin == [] {
      assert Flatten(groups) + lin == Flatten(groups);
      AsGoodRefl(g, Flatten(groups));
    } else {
      hide AsGood, Distinct, Elems, Chunked, Rising, PositiveSizes, Insert;
      var c, rest := [lin[0]], lin[1..];
      assert lin == c + rest;
      assert Flatten(groups) + lin == (Flatten(groups) + c) + rest;
      DistinctSplit(Flatten(groups) + c, rest);
      ElemsConcat(Flatten(groups) + c, rest);
      ElemsConcat(Flatten(groups), c);
      SingleRising(g, lin[0]);
      var next := Insert(g, groups, c);
      InsertChunked(g, groups, c, EMPTY);
      InsertElems(g, groups, c);
      InsertAsGood(g, groups, c);
      AsGoodBefore(g, Flatten(next), Flatten(groups) + c, rest);
      DistinctConcat(Flatten(next), rest);
      ElemsConcat(Flatten(next), rest);
      InsertAllGuarantees(g, next, rest);
      AsGoodTrans(g, Flatten(InsertAll(g, next, rest)), Flatten(next) + rest, (Flatten(groups) + c) + rest);
    }
  }

  lemma {:induction false} InsertAllLinearizes(g: Graph, groups: seq<seq<nat>>, lin: seq<nat>, todo: set<nat>)
    requires Linearizes(g, Flatten(groups) + lin, todo)
    ensures Linearizes(g, Flatten(InsertAll(g, groups, lin)), todo)
    decreases |lin|
  {
    if lin == [] {
      assert Flatten(groups) + lin == Flatten(groups);
    } else {
      hide Linearizes, Closed, Insert;
      var c, rest := [lin[0]], lin[1..];
      assert lin == c + rest;
      assert Flatten(groups) + lin == (Flatten(groups) + c) + rest;
      var s := Elems(Flatten(groups) + c);
      SplitLinearizes(g, Flatten(groups) + c, rest, todo);
      InsertLinearizes(g, groups, c, s);
      ConcatLinearizes(g, Flatten(Insert(g, groups, c)), rest, s, todo);
      InsertAllLinearizes(g, Insert(g, groups, c), rest, todo);
    }
  }

  /** A pass keeps a linearization valid, makes its diagram nowhere worse, and leaves the groups
      as exactly the chunks of the result. */
  lemma {:induction false} PassGuarantees(g: Graph, lin: seq<nat>, todo: set<nat>)
    requires PositiveSizes(g) && todo <= g.used && Linearizes(g, lin, todo)
    ensures Linearizes(g, Flatten(Pass(g, lin)), todo) && AsGood(g, Flatten(Pass(g, lin)), lin)
    ensures Chunked(g, Pass(g, lin)) && Chunks(g, Flatten(Pass(g, lin))) == Pass(g, lin)
  {
    hide AsGood, Rising, Insert, InsertAll, PositiveSizes;
    assert Flatten([]) + lin == lin;
    InsertAllLinearizes(g, [], lin, todo);
    InsertAllGuarantees(g, [], lin);
    ChunksChunked(g, Flatten(Pass(g, lin)));
    ChunkingUnique(g, Chunks(g, Flatten(Pass(g, lin))), Pass(g, lin));
  }
}
