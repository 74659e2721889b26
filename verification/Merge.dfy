/** Merging two linearizations of a cluster (src/cluster_linearize.h, MergeLinearizations). */
module Merging {
  import opened FeeFracs
  import opened Sums
  import opened DepGraphs
  import opened Chunking
  import opened Diagrams
  import opened LinearizationChunkings

  /** `ret` has been output, `rem` remains of `lin`, and appending it would be as good as `lin`. */
  ghost predicate Progress(g: Graph, ret: seq<nat>, rem: seq<nat>, lin: seq<nat>, todo: set<nat>) {
    && todo <= g.used && Closed(g, g.used - todo, g.used) && Linearizes(g, ret, g.used - todo)
    && Linearizes(g, rem, todo) && AsGood(g, ret + rem, lin)
  }

  lemma {:induction false} ProgressStart(g: Graph, lin: seq<nat>)
    requires Linearizes(g, lin, g.used)
    ensures Progress(g, [], lin, lin, g.used)
  {
    assert g.used - g.used == {};
    assert [] + lin == lin;
    AsGoodRefl(g, lin);
  }

  lemma {:induction false} ProgressDone(g: Graph, ret: seq<nat>, rem: seq<nat>, lin: seq<nat>)
    requires Progress(g, ret, rem, lin, {})
    ensures Linearizes(g, ret, g.used) && AsGood(g, ret, lin)
  {
    DistinctCard(rem);
    assert ret + [] == ret && g.used - {} == g.used;
  }

  /** Outputting a closed movable set keeps the output as good as `lin`. */
  lemma {:induction false} ProgressStep(g: Graph, ret: seq<nat>, rem: seq<nat>, lin: seq<nat>, todo: set<nat>,
      r: set<nat>, t: seq<nat>)
    requires PositiveSizes(g) && Progress(g, ret, rem, lin, todo)
    requires r != {} && Closed(g, r, todo) && Movable(g, r, Chunks(g, rem)) && Linearizes(g, t, r)
    ensures Progress(g, ret + t, Filter(rem, todo - r), lin, todo - r)
  {
    hide AsGood, Filter, Movable, Chunks, PositiveSizes;
    FilterLinearizes(g, rem, todo, todo - r);
    assert todo * (todo - r) == todo - r;
    assert g.used - (todo - r) == (g.used - todo) + r;
    OutputLinearizes(g, ret, t, todo, r);
    OutputAsGood(g, ret, rem, lin, todo, r, t);
  }

  lemma {:induction false} OutputLinearizes(g: Graph, ret: seq<nat>, t: seq<nat>, todo: set<nat>, r: set<nat>)
    requires todo <= g.used && Closed(g, g.used - todo, g.used) && Linearizes(g, ret, g.used - todo)
    requires Closed(g, r, todo) && Linearizes(g, t, r)
    ensures Closed(g, (g.used - todo) + r, g.used) && Linearizes(g, ret + t, (g.used - todo) + r)
  {
    hide Linearizes;
    var done := g.used - todo;
    assert g.used - done == todo;
    ClosedWithin(g, r, done, g.used);
    assert r + done == done + r;
    assert done + r - done == r;
    assert Closed(g, done, done + r);
    ConcatLinearizes(g, ret, t, done, done + r);
  }

  lemma {:induction false} OutputAsGood(g: Graph, ret: seq<nat>, rem: seq<nat>, lin: seq<nat>, todo: set<nat>,
      r: set<nat>, t: seq<nat>)
    requires PositiveSizes(g) && todo <= g.used && Linearizes(g, rem, todo) && AsGood(g, ret + rem, lin)
    requires r != {} && r <= todo && Movable(g, r, Chunks(g, rem)) && Linearizes(g, t, r)
    ensures AsGood(g, (ret + t) + Filter(rem, todo - r), lin)
  {
    hide AsGood, Filter, Movable, Chunks, PositiveSizes;
    MoveToFront(g, rem, r, t);
    var moved := t + Filter(rem, todo - r);
    AsGoodAfter(g, ret, moved, rem);
    AsGoodTrans(g, ret + moved, ret + rem, lin);
    assert ret + moved == (ret + t) + Filter(rem, todo - r);
  }

  /** The set taken at each step: from the first chunk `s` of `remA`, which is no worse than the
      first chunk of `remB`, its shortest good intersection with prefixes of `remB`. It is closed,
      and can be moved to the front of both. */
  lemma {:induction false} ChoiceMovable(g: Graph, remA: seq<nat>, remB: seq<nat>, todo: set<nat>, s: seq<nat>, i: nat,
      r: set<nat>)
    requires PositiveSizes(g) && todo <= g.used && Linearizes(g, remA, todo) && Linearizes(g, remB, todo)
    requires Chunks(g, remA) != [] && Chunks(g, remB) != [] && s == Chunks(g, remA)[0]
    requires !Lower(SeqRate(g, s), SeqRate(g, Chunks(g, remB)[0]))
    requires ShortestIntersection(g, Chunks(g, remB), Elems(s), i, r)
    ensures r != {} && Closed(g, r, todo) && Movable(g, r, Chunks(g, remA)) && Movable(g, r, Chunks(g, remB))
  {
    var sa, sb := Chunks(g, remA), Chunks(g, remB);
    ChunksChunked(g, remA);
    ChunksChunked(g, remB);
    FirstChunkDistinct(g, remA, sa);
    SeqRateElems(g, s);
    ChoiceClosed(g, remA, remB, todo, sa, sb, i);
    SegInFlatten(sa, 0);
    IntersectionMovable(g, sb, Elems(s), i, r);
    ExcessAntisymmetric(SetRate(g, r), SeqRate(g, s));
    FirstChunkPartMovable(g, sa, r);
  }

  lemma {:induction false} FirstChunkDistinct(g: Graph, rem: seq<nat>, segs: seq<seq<nat>>)
    requires segs != [] && Flatten(segs) == rem && Distinct(rem)
    ensures Distinct(segs[0])
  {
    DistinctSplit(segs[0], Flatten(segs[1..]));
  }

  lemma {:induction false} BoundaryClosed(g: Graph, rem: seq<nat>, todo: set<nat>, segs: seq<seq<nat>>, j: nat)
    requires Linearizes(g, rem, todo) && Flatten(segs) == rem && j <= |segs|
    ensures Closed(g, PrefixSet(segs, j), todo)
  {
    FlattenSplit(segs, j);
    var n := |Flatten(segs[..j])|;
    assert rem[..n] == Flatten(segs[..j]);
    PrefixClosed(g, rem, todo, n);
  }

  lemma {:induction false} FirstChunkPrefix(segs: seq<seq<nat>>)
    requires segs != []
    ensures PrefixSet(segs, 1) == Elems(segs[0])
  {
    assert segs[..1] == [segs[0]];
    FlattenSingle(segs[0]);
  }

  lemma {:induction false} ChoiceClosed(g: Graph, remA: seq<nat>, remB: seq<nat>, todo: set<nat>, sa: seq<seq<nat>>,
      sb: seq<seq<nat>>, i: nat)
    requires Linearizes(g, remA, todo) && Linearizes(g, remB, todo) && Flatten(sa) == remA && Flatten(sb) == remB
    requires sa != [] && i <= |sb|
    ensures Closed(g, Elems(sa[0]) * PrefixSet(sb, i), todo)
  {
    FirstChunkPrefix(sa);
    BoundaryClosed(g, remA, todo, sa, 1);
    BoundaryClosed(g, remB, todo, sb, i);
    ClosedUnion(g, Elems(sa[0]), PrefixSet(sb, i), todo);
  }

  lemma {:induction false} ChunksWhileTodo(g: Graph, rem: seq<nat>, todo: set<nat>)
    requires PositiveSizes(g) && todo <= g.used && Linearizes(g, rem, todo)
    ensures todo != {} <==> Chunks(g, rem) != []
    ensures todo != {} ==> Elems(Chunks(g, rem)[0]) <= todo && Elems(Chunks(g, rem)[0]) != {}
    ensures todo != {} ==> Exact(g, SetInfo(Elems(Chunks(g, rem)[0]), SeqRate(g, Chunks(g, rem)[0])))
  {
    ChunksChunked(g, rem);
    if todo != {} {
      assert rem != [];
      ChunksNonempty(g, rem);
      var segs := Chunks(g, rem);
      SegInFlatten(segs, 0);
      FirstChunkDistinct(g, rem, segs);
      SeqRateElems(g, segs[0]);
      assert segs[0][0] in Elems(segs[0]);
    } else {
      assert forall i :: 0 <= i < |rem| ==> rem[i] in Elems(rem);
    }
  }

  /** One round: choose the set to output from the two chunkings. */
  method ChooseSet(c1: LinearizationChunking, c2: LinearizationChunking) returns (best: SetInfo)
    requires c1.Valid() && c2.Valid() && c1.g == c2.g && c1.todo == c2.todo && c1.todo != {}
    requires Linearizes(c1.g, c1.Remaining(), c1.todo) && Linearizes(c1.g, c2.Remaining(), c1.todo)
    ensures best.transactions != {} && Closed(c1.g, best.transactions, c1.todo)
    ensures Movable(c1.g, best.transactions, Chunks(c1.g, c1.Remaining()))
    ensures Movable(c1.g, best.transactions, Chunks(c1.g, c2.Remaining()))
  {
    hide Linearizes, Closed, Movable, Chunks, Elems, Distinct, Filter, PositiveSizes, SetRate, ShortestIntersection;
    ghost var g, todo := c1.g, c1.todo;
    ghost var rem1, rem2 := c1.Remaining(), c2.Remaining();
    ChunksWhileTodo(g, rem1, todo);
    ChunksWhileTodo(g, rem2, todo);
    var first1, first2 := c1.GetChunk(0), c2.GetChunk(0);
    ghost var s1, s2 := Chunks(g, rem1)[0], Chunks(g, rem2)[0];
    assert first1 == SetInfo(Elems(s1), SeqRate(g, s1)) && first2 == SetInfo(Elems(s2), SeqRate(g, s2));
    ghost var i;
    if Higher(first2.feerate, first1.feerate) {
      best, i := c1.IntersectPrefixes(first2);
      ChoiceMovable(g, rem2, rem1, todo, s2, i, best.transactions);
    } else {
      best, i := c2.IntersectPrefixes(first1);
      ChoiceMovable(g, rem1, rem2, todo, s1, i, best.transactions);
    }
  }

  /** Merge two linearizations into one that is as good as both. */
  method MergeLinearizations(g: Graph, lin1: seq<nat>, lin2: seq<nat>) returns (ret: seq<nat>)
    requires Cluster(g) && Linearizes(g, lin1, g.used) && Linearizes(g, lin2, g.used)
    ensures Linearizes(g, ret, g.used) && AsGood(g, ret, lin1) && AsGood(g, ret, lin2)
  {
    hide Linearizes, Closed, Movable, Chunks, Elems, Distinct, Filter, PositiveSizes, AsGood, Progress, WellFormed,
        Acyclic;
    LinearizesShape(g, lin1);
    LinearizesShape(g, lin2);
    var c1 := new LinearizationChunking(g, lin1);
    var c2 := new LinearizationChunking(g, lin2);
    ret := [];
    ProgressStart(g, lin1);
    ProgressStart(g, lin2);
    while c1.todo != {}
      invariant fresh(c1) && fresh(c2) && c1 != c2 && c1.g == g && c2.g == g
      invariant c1.Valid() && c2.Valid() && c1.todo == c2.todo
      invariant Progress(g, ret, c1.Remaining(), lin1, c1.todo) && Progress(g, ret, c2.Remaining(), lin2, c1.todo)
      decreases |c1.todo|
    {
      ret := MergeRound(c1, c2, ret, lin1, lin2);
    }
    ProgressDone(g, ret, c1.Remaining(), lin1);
    ProgressDone(g, ret, c2.Remaining(), lin2);
  }

  lemma {:induction false} ProgressLinearizes(g: Graph, ret: seq<nat>, rem: seq<nat>, lin: seq<nat>, todo: set<nat>)
    requires Progress(g, ret, rem, lin, todo)
    ensures Linearizes(g, rem, todo) && todo <= g.used
  {
  }

  lemma {:induction false} ClosedSubset(g: Graph, s: set<nat>, todo: set<nat>)
    requires Closed(g, s, todo)
    ensures s <= todo
  {
  }

  method MergeRound(c1: LinearizationChunking, c2: LinearizationChunking, before: seq<nat>, ghost lin1: seq<nat>,
      ghost lin2: seq<nat>)
    returns (ret: seq<nat>)
    requires c1.Valid() && c2.Valid() && c1 != c2 && c1.g == c2.g && c1.todo == c2.todo && c1.todo != {}
    requires Cluster(c1.g)
    requires Progress(c1.g, before, c1.Remaining(), lin1, c1.todo)
    requires Progress(c1.g, before, c2.Remaining(), lin2, c1.todo)
    modifies c1, c2
    ensures c1.Valid() && c2.Valid() && c1.todo == c2.todo && |c1.todo| < old(|c1.todo|)
    ensures Progress(c1.g, ret, c1.Remaining(), lin1, c1.todo) && Progress(c1.g, ret, c2.Remaining(), lin2, c1.todo)
  {
    hide Linearizes, Closed, Movable, Chunks, Elems, Distinct, Filter, PositiveSizes, AsGood, Progress, WellFormed,
        Acyclic;
    ghost var g, todo, rem1, rem2 := c1.g, c1.todo, c1.Remaining(), c2.Remaining();
    ProgressLinearizes(g, before, rem1, lin1, todo);
    ProgressLinearizes(g, before, rem2, lin2, todo);
    var best := ChooseSet(c1, c2);
    var r := best.transactions;
    ClosedSubset(g, r, todo);
    ret := AppendTopo(c1.g, before, r);
    ghost var t := ret[|before|..];
    assert ret == before + t;
    c1.MarkDone(r);
    c2.MarkDone(r);
    ProgressStep(g, before, rem1, lin1, todo, r, t);
    ProgressStep(g, before, rem2, lin2, todo, r, t);
    SubsetCard(todo - r, todo);
  }
}
