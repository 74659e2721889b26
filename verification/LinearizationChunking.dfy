/** The chunking of what remains of a linearization, and moving a set to its front
    (src/cluster_linearize.h, struct SetInfo and class LinearizationChunking). */
module LinearizationChunkings {
  import opened FeeFracs
  import opened Sums
  import opened DepGraphs
  import opened Chunking
  import opened Diagrams

  /** A set of transactions together with their aggregate feerate. */
  datatype SetInfo = SetInfo(transactions: set<nat>, feerate: FeeFrac)

  ghost predicate Exact(g: Graph, s: SetInfo) {
    s.feerate == SetRate(g, s.transactions)
  }

  function ChunkSets(g: Graph, segs: seq<seq<nat>>): (r: seq<SetInfo>)
    ensures |r| == |segs|
    ensures forall i :: 0 <= i < |segs| ==> r[i] == SetInfo(Elems(segs[i]), SeqRate(g, segs[i]))
  {
    seq(|segs|, i requires 0 <= i < |segs| => SetInfo(Elems(segs[i]), SeqRate(g, segs[i])))
  }

  /** The transactions of the first `j` chunks. */
  ghost function PrefixSet(segs: seq<seq<nat>>, j: nat): set<nat>
    requires j <= |segs|
  {
    Elems(Flatten(segs[..j]))
  }

  lemma {:induction false} FlattenSplit(segs: seq<seq<nat>>, j: nat)
    requires j <= |segs|
    ensures Flatten(segs) == Flatten(segs[..j]) + Flatten(segs[j..])
  {
    assert segs == segs[..j] + segs[j..];
    FlattenConcat(segs[..j], segs[j..]);
  }

  lemma {:induction false} PrefixSetStep(segs: seq<seq<nat>>, j: nat)
    requires j < |segs|
    ensures PrefixSet(segs, j + 1) == PrefixSet(segs, j) + Elems(segs[j])
  {
    assert segs[..j + 1] == segs[..j] + [segs[j]];
    FlattenSnoc(segs[..j], segs[j]);
    ElemsConcat(Flatten(segs[..j]), segs[j]);
  }

  lemma {:induction false} PrefixSetMonotone(segs: seq<seq<nat>>, i: nat, j: nat)
    requires i <= j <= |segs|
    ensures PrefixSet(segs, i) <= PrefixSet(segs, j) <= Elems(Flatten(segs))
  {
    FlattenSplit(segs[..j], i);
    assert segs[..j][..i] == segs[..i];
    ElemsConcat(Flatten(segs[..i]), Flatten(segs[..j][i..]));
    FlattenSplit(segs, j);
    ElemsConcat(Flatten(segs[..j]), Flatten(segs[j..]));
  }

  // ---- Moving a set to the front ----

  /** No intersection of `r` with the first chunks has a higher feerate than `r`, and neither has
      the first chunk itself. */
  ghost predicate Movable(g: Graph, r: set<nat>, segs: seq<seq<nat>>) {
    && (segs != [] ==> Excess(SetRate(g, r), SeqRate(g, segs[0])) <= 0)
    && forall j {:trigger PrefixSet(segs, j)} :: 0 <= j <= |segs| ==>
         Excess(SetRate(g, r), SetRate(g, r * PrefixSet(segs, j))) <= 0
  }

  /** Some chunk boundary is a heaviest prefix. */
  lemma {:induction false} HeaviestBoundary(g: Graph, segs: seq<seq<nat>>, l: FeeFrac) returns (j: nat)
    requires PositiveSizes(g) && Chunked(g, segs) && Elems(Flatten(segs)) <= g.used && l.size > 0
    ensures j <= |segs| && SeqSum(Slope(g, l), Flatten(segs[..j])) == MaxPrefix(Slope(g, l), Flatten(segs))
  {
    var w := Slope(g, l);
    ChunksEnvelope(g, segs, l);
    j := 0;
    assert segs[..0] == [] && segs[0..] == segs;
    while j < |segs| && SeqSum(w, segs[j]) > 0
      invariant j <= |segs|
      invariant SeqSum(w, Flatten(segs[..j])) + PositivePart(w, segs[j..]) == PositivePart(w, segs)
    {
      assert segs[..j + 1] == segs[..j] + [segs[j]];
      FlattenSnoc(segs[..j], segs[j]);
      SeqSumConcat(w, Flatten(segs[..j]), segs[j]);
      assert segs[j..][1..] == segs[j + 1..] && segs[j..][0] == segs[j];
      j := j + 1;
    }
    forall i | 0 <= i < |segs[j..]| ensures SeqSum(w, segs[j..][i]) <= 0 {
      assert segs[j..][i] == segs[j + i];
      if SeqSum(w, segs[j + i]) > 0 { ChunkHeavier(g, segs, j, j + i, l); }
    }
    PositivePartBound(w, segs[j..]);
  }

  lemma {:induction false} MoveToFrontAt(g: Graph, segs: seq<seq<nat>>, r: set<nat>, t: seq<nat>, l: FeeFrac)
    requires PositiveSizes(g) && Chunked(g, segs) && Distinct(Flatten(segs)) && Elems(Flatten(segs)) <= g.used
    requires r != {} && r <= Elems(Flatten(segs)) && Movable(g, r, segs)
    requires Distinct(t) && Elems(t) == r && l.size > 0 && Excess(l, SetRate(g, r)) >= 0
    ensures MaxPrefix(Slope(g, l), t + Filter(Flatten(segs), Elems(Flatten(segs)) - r)) >= MaxPrefix(Slope(g, l),
            Flatten(segs))
  {
    hide *;
    var j := HeaviestBoundary(g, segs, l);
    FlattenSplit(segs, j);
    AddedNotNegative(g, segs, r, j, l);
    PrefixSetIs(segs, j);
    FrontWeight(Slope(g, l), Flatten(segs[..j]), Flatten(segs[j..]), r, t);
  }

  lemma {:induction false} PrefixSetIs(segs: seq<seq<nat>>, j: nat)
    requires j <= |segs|
    ensures PrefixSet(segs, j) == Elems(Flatten(segs[..j]))
  {
  }

  /** If moving `r` to the front adds no negative weight to the first part `a`, some prefix of the
      result weighs at least as much as `a`. */
  lemma {:induction false} FrontWeight(w: Weight, a: seq<nat>, b: seq<nat>, r: set<nat>, t: seq<nat>)
    requires Distinct(a + b) && Distinct(t) && Elems(t) == r && SetSum(w, r - Elems(a)) >= 0
    ensures MaxPrefix(w, t + Filter(a + b, Elems(a + b) - r)) >= SeqSum(w, a)
  {
    hide SetSum, SeqSum, MaxPrefix, Filter;
    var keep := Elems(a + b) - r;
    var fa, fb := Filter(a, keep), Filter(b, keep);
    DistinctSplit(a, b);
    ElemsConcat(a, b);
    FilterConcat(a, b, keep);
    FilterDistinct(a, keep);
    assert Elems(fa) == Elems(a) - r;
    DistinctConcat(t, fa);
    ElemsConcat(t, fa);
    assert t + (fa + fb) == (t + fa) + fb;
    MaxPrefixBeyond(w, t + fa, fb);
    SeqSumElems(w, t + fa);
    SeqSumElems(w, a);
    SetSumUnion(w, Elems(a), r - Elems(a));
    assert Elems(t + fa) == Elems(a) + (r - Elems(a));
  }

  lemma {:induction false} MaxPrefixBeyond(w: Weight, a: seq<nat>, b: seq<nat>)
    ensures MaxPrefix(w, a + b) >= SeqSum(w, a)
  {
    MaxPrefixConcat(w, a, b);
  }

  lemma {:induction false} AddedNotNegative(g: Graph, segs: seq<seq<nat>>, r: set<nat>, j: nat, l: FeeFrac)
    requires PositiveSizes(g) && r <= g.used && r != {} && Movable(g, r, segs) && j <= |segs|
    requires l.size > 0 && Excess(l, SetRate(g, r)) >= 0
    ensures SetSum(Slope(g, l), r - PrefixSet(segs, j)) >= 0
  {
    var p := PrefixSet(segs, j);
    var rr := SetRate(g, r);
    SetSizePositive(g, r);
    SetSizePositive(g, r - p);
    SetExcess(g, rr, r);
    SetExcess(g, rr, r * p);
    SetExcess(g, rr, r - p);
    SetSumSplit(Slope(g, rr), r, p);
    SteeperTrans(l, rr, SetRate(g, r - p));
    SetExcess(g, l, r - p);
  }

  /** Moving a movable set to the front, in any order, does not make a linearization worse. */
  lemma {:induction false} MoveToFront(g: Graph, lin: seq<nat>, r: set<nat>, t: seq<nat>)
    requires PositiveSizes(g) && Distinct(lin) && Elems(lin) <= g.used
    requires r != {} && r <= Elems(lin) && Movable(g, r, Chunks(g, lin)) && Distinct(t) && Elems(t) == r
    ensures AsGood(g, t + Filter(lin, Elems(lin) - r), lin)
  {
    var segs := Chunks(g, lin);
    ChunksChunked(g, lin);
    forall l: FeeFrac | l.size > 0
      ensures MaxPrefix(Slope(g, l), t + Filter(lin, Elems(lin) - r)) >= MaxPrefix(Slope(g, l), lin)
    {
      if Excess(l, SetRate(g, r)) >= 0 {
        MoveToFrontAt(g, segs, r, t, l);
      } else {
        SteepSlope(g, segs, r, l);
      }
    }
  }

  /** At a slope steeper than `r`, hence than every chunk, the heaviest prefix is empty. */
  lemma {:induction false} SteepSlope(g: Graph, segs: seq<seq<nat>>, r: set<nat>, l: FeeFrac)
    requires PositiveSizes(g) && Chunked(g, segs) && Elems(Flatten(segs)) <= g.used
    requires r != {} && r <= g.used && Movable(g, r, segs) && l.size > 0 && Excess(l, SetRate(g, r)) < 0
    ensures MaxPrefix(Slope(g, l), Flatten(segs)) == 0
  {
    var w := Slope(g, l);
    SetSizePositive(g, r);
    forall i | 0 <= i < |segs| ensures SeqSum(w, segs[i]) <= 0 {
      SegInFlatten(segs, 0);
      SeqSizePositive(g, segs[0]);
      FlatterTrans(l, SetRate(g, r), SeqRate(g, segs[0]));
      SeqExcess(g, l, segs[0]);
      if SeqSum(w, segs[i]) > 0 { ChunkHeavier(g, segs, 0, i, l); }
    }
    PositivePartBound(w, segs);
    ChunksEnvelope(g, segs, l);
  }

  /** The intersection with the first `i` chunks that IntersectPrefixes settles on: not lower than
      `subset` itself, while every shorter nonempty one is. */
  ghost predicate ShortestIntersection(g: Graph, segs: seq<seq<nat>>, subset: set<nat>, i: nat, r: set<nat>) {
    && i <= |segs| && r == subset * PrefixSet(segs, i) && r != {}
    && !Lower(SetRate(g, r), SetRate(g, subset))
    && forall j {:trigger PrefixSet(segs, j)} :: 0 <= j < i && subset * PrefixSet(segs, j) != {} ==>
         Lower(SetRate(g, subset * PrefixSet(segs, j)), SetRate(g, subset))
  }

  /** The guarantee of IntersectPrefixes: if `subset` is no worse than the first chunk, its
      shortest good intersection can be moved to the front. */
  lemma {:induction false} IntersectionMovable(g: Graph, segs: seq<seq<nat>>, subset: set<nat>, i: nat, r: set<nat>)
    requires PositiveSizes(g) && Elems(Flatten(segs)) <= g.used && subset <= g.used && segs != [] && segs[0] != []
    requires ShortestIntersection(g, segs, subset, i, r)
    requires !Lower(SetRate(g, subset), SeqRate(g, segs[0]))
    ensures Movable(g, r, segs)
  {
    var rr, rs := SetRate(g, r), SetRate(g, subset);
    SetSizePositive(g, r);
    SetSizePositive(g, subset);
    SegInFlatten(segs, 0);
    SeqSizePositive(g, segs[0]);
    ExcessAntisymmetric(rr, rs);
    ExcessAntisymmetric(rs, SeqRate(g, segs[0]));
    FlatterTrans(rr, rs, SeqRate(g, segs[0]));
    forall j | 0 <= j <= |segs| ensures Excess(rr, SetRate(g, r * PrefixSet(segs, j))) <= 0 {
      if j >= i {
        PrefixSetMonotone(segs, i, j);
        assert r * PrefixSet(segs, j) == r;
      } else {
        PrefixSetMonotone(segs, j, i);
        var x := subset * PrefixSet(segs, j);
        assert r * PrefixSet(segs, j) == x;
        if x == {} {
          SetSumEmpty(FeeOf(g));
          SetSumEmpty(SizeOf(g));
        } else {
          SetSizePositive(g, x);
          FlatterTrans(rr, rs, SetRate(g, x));
        }
      }
    }
  }

  /** A part of the first chunk that is no worse than the chunk can be moved to the front. */
  lemma {:induction false} FirstChunkPartMovable(g: Graph, segs: seq<seq<nat>>, r: set<nat>)
    requires segs != [] && r <= Elems(segs[0]) && Excess(SetRate(g, r), SeqRate(g, segs[0])) <= 0
    ensures Movable(g, r, segs)
  {
    forall j | 0 <= j <= |segs| ensures Excess(SetRate(g, r), SetRate(g, r * PrefixSet(segs, j))) <= 0 {
      if j == 0 {
        assert segs[..0] == [];
        assert r * PrefixSet(segs, j) == {};
        SetSumEmpty(FeeOf(g));
        SetSumEmpty(SizeOf(g));
      } else {
        PrefixSetMonotone(segs, 1, j);
        assert segs[..1] == [segs[0]];
        FlattenSingle(segs[0]);
        assert r * PrefixSet(segs, j) == r;
      }
    }
  }

  // ---- Skipping the first chunk ----

  lemma {:induction false} ChunksNonempty(g: Graph, lin: seq<nat>)
    requires PositiveSizes(g) && Elems(lin) <= g.used && lin != []
    ensures Chunks(g, lin) != [] && Chunks(g, lin)[0] != []
  {
    ChunksChunked(g, lin);
  }

  /** The first |subset| positions hold nothing outside the first chunk that is still to do. */
  lemma {:induction false} DonePrefix(lin: seq<nat>, todo: set<nat>, first: seq<nat>, rest: seq<nat>)
    requires Distinct(lin) && Filter(lin, todo) == first + rest
    ensures |first| <= |lin| && Filter(lin[..|first|], todo - Elems(first)) == []
  {
    var n := |first|;
    var a, b := lin[..n], lin[n..];
    assert lin == a + b;
    FilterConcat(a, b, todo);
    var fa := Filter(a, todo);
    assert (first + rest)[..|fa|] == fa;
    assert fa == first[..|fa|];
    assert Elems(fa) <= Elems(first);
    assert Elems(a) * todo == Elems(fa);
    FilterEmpty(a, todo - Elems(first));
  }

  lemma {:induction false} FilterEmpty(s: seq<nat>, keep: set<nat>)
    requires Elems(s) * keep == {}
    ensures Filter(s, keep) == []
  {
    assert forall x :: x in Elems(s) && x in keep ==> x in Elems(s) * keep;
    FilterNone(s, keep);
  }

  /** Dropping exactly the first chunk leaves the other chunks as they are. */
  lemma {:induction false} SkipFirstChunk(g: Graph, lin: seq<nat>, todo: set<nat>, subset: set<nat>)
    requires PositiveSizes(g) && Distinct(lin) && todo <= Elems(lin) && Elems(lin) <= g.used && subset != {}
    requires subset <= todo
    requires var segs := Chunks(g, Filter(lin, todo)); segs != [] && Elems(segs[0]) == subset
    ensures |subset| <= |lin| && todo - subset <= Elems(lin[|subset|..])
    ensures Filter(lin[|subset|..], todo - subset) == Filter(Filter(lin, todo), todo - subset)
    ensures Chunks(g, Filter(lin[|subset|..], todo - subset)) == Chunks(g, Filter(lin, todo))[1..]
  {
    hide *;
    var rem := Filter(lin, todo);
    var segs := Chunks(g, rem);
    RemainderElems(lin, todo);
    FilterDistinct(lin, todo);
    ChunksChunked(g, rem);
    FlattenHead(segs);
    SkipPrefix(lin, todo, subset, segs[0], Flatten(segs[1..]));
    ChunksOfTail(g, rem, segs);
  }

  lemma {:induction false} RemainderElems(lin: seq<nat>, todo: set<nat>)
    requires todo <= Elems(lin)
    ensures Elems(Filter(lin, todo)) == todo
  {
  }

  lemma {:induction false} FlattenHead(segs: seq<seq<nat>>)
    requires segs != []
    ensures Flatten(segs) == segs[0] + Flatten(segs[1..])
  {
  }

  lemma {:induction false} ChunksOfTail(g: Graph, rem: seq<nat>, segs: seq<seq<nat>>)
    requires PositiveSizes(g) && Elems(rem) <= g.used && segs != [] && Chunked(g, segs) && Flatten(segs) == rem
    ensures Chunks(g, Flatten(segs[1..])) == segs[1..]
  {
    hide *;
    var rest := Flatten(segs[1..]);
    FlattenHead(segs);
    ElemsConcat(segs[0], rest);
    ChunkedTail(g, segs);
    ChunksChunked(g, rest);
    ChunkingUnique(g, Chunks(g, rest), segs[1..]);
  }

  lemma {:induction false} SkipPrefix(lin: seq<nat>, todo: set<nat>, subset: set<nat>, first: seq<nat>, rest: seq<nat>)
    requires Distinct(lin) && todo <= Elems(lin) && subset <= todo
    requires Filter(lin, todo) == first + rest && Distinct(first + rest) && Elems(first) == subset
    ensures |subset| <= |lin| && todo - subset <= Elems(lin[|subset|..])
    ensures Filter(lin[|subset|..], todo - subset) == rest == Filter(Filter(lin, todo), todo - subset)
  {
    hide Distinct, Filter, Elems;
    DistinctSplit(first, rest);
    DistinctCard(first);
    DonePrefix(lin, todo, first, rest);
    RemainderElems(lin, todo);
    var n := |first|;
    assert lin == lin[..n] + lin[n..];
    FilterConcat(lin[..n], lin[n..], todo - subset);
    assert [] + Filter(lin[n..], todo - subset) == Filter(lin[n..], todo - subset);
    MarkDoneRemaining(lin, todo, subset);
    SkipFirstChunkRest(first, rest, todo, subset);
    assert Elems(Filter(lin[n..], todo - subset)) == Elems(lin[n..]) * (todo - subset);
    ElemsConcat(first, rest);
  }

  lemma {:induction false} SkipFirstChunkRest(first: seq<nat>, rest: seq<nat>, todo: set<nat>, subset: set<nat>)
    requires Elems(first) == subset && Elems(first + rest) <= todo && Elems(first) !! Elems(rest)
    ensures Filter(first + rest, todo - subset) == rest
  {
    ElemsConcat(first, rest);
    FilterConcat(first, rest, todo - subset);
    FilterEmpty(first, todo - subset);
    FilterAll(rest, todo - subset);
    assert [] + rest == rest;
  }

  // ---- The object ----

  /** Append transaction `idx` to a chunking: a new chunk that absorbs the last ones while they
      have lower feerate. */
  method AppendTransaction(g: Graph, before: seq<SetInfo>, idx: nat, ghost old': seq<seq<nat>>)
      returns (chunks: seq<SetInfo>)
    requires before == ChunkSets(g, old')
    ensures chunks == ChunkSets(g, Absorb(g, old', [idx]))
  {
    var add := SetInfo({idx}, FeeRate(g, idx));
    chunks := before;
    ghost var segs, c := old', [idx];
    SeqRateSingleton(g, idx);
    assert Elems([idx]) == {idx};
    while chunks != [] && Higher(add.feerate, chunks[|chunks| - 1].feerate)
      invariant chunks == ChunkSets(g, segs) && add == SetInfo(Elems(c), SeqRate(g, c))
      invariant Absorb(g, segs, c) == Absorb(g, old', [idx])
      decreases |chunks|
    {
      var last := chunks[|chunks| - 1];
      SeqRateConcat(g, segs[|segs| - 1], c);
      ElemsConcat(segs[|segs| - 1], c);
      c := segs[|segs| - 1] + c;
      segs := segs[..|segs| - 1];
      add := SetInfo(add.transactions + last.transactions,
                     FeeFrac(add.feerate.fee + last.feerate.fee, add.feerate.size + last.feerate.size));
      chunks := chunks[..|chunks| - 1];
    }
    chunks := chunks + [add];
    assert Absorb(g, segs, c) == segs + [c];
  }

  /** Chunk the positions of `lin` that are still to do. */
  method ChunkRemaining(g: Graph, lin: seq<nat>, todo: set<nat>) returns (chunks: seq<SetInfo>)
    ensures chunks == ChunkSets(g, Chunks(g, Filter(lin, todo)))
  {
    chunks := [];
    assert lin[..0] == [];
    for i := 0 to |lin|
      invariant chunks == ChunkSets(g, Chunks(g, Filter(lin[..i], todo)))
    {
      ghost var sofar := Filter(lin[..i], todo);
      FilterSnoc(lin, i, todo);
      if lin[i] !in todo {
        assert Filter(lin[..i + 1], todo) == sofar;
        continue;
      }
      chunks := AppendTransaction(g, chunks, lin[i], Chunks(g, sofar));
      ChunksSnoc(g, sofar, lin[i]);
    }
    assert lin[..|lin|] == lin;
  }

  class LinearizationChunking {
    const g: Graph
    /** The linearization, possibly with a removed prefix stripped. */
    var linearization: seq<nat>
    var chunks: seq<SetInfo>
    /** How many of the first chunks have been removed. */
    var chunksSkip: nat
    var todo: set<nat>

    /** What is left of the linearization. */
    ghost function Remaining(): seq<nat>
      reads this
    {
      Filter(linearization, todo)
    }

    ghost predicate Covers()
      reads this
    {
      PositiveSizes(g) && Distinct(linearization) && todo <= Elems(linearization) && Elems(linearization) <= g.used
    }

    /** The chunks kept are those that chunking the remainder from scratch gives. */
    ghost predicate Valid()
      reads this
    {
      Covers() && chunksSkip <= |chunks| && chunks[chunksSkip..] == ChunkSets(g, Chunks(g, Remaining()))
    }

    constructor (g: Graph, lin: seq<nat>)
      requires PositiveSizes(g) && Distinct(lin) && Elems(lin) <= g.used
      ensures this.g == g && Valid() && todo == Elems(lin) && Remaining() == lin
    {
      this.g := g;
      linearization := lin;
      todo := Elems(lin);
      chunks := [];
      chunksSkip := 0;
      new;
      FilterAll(lin, Elems(lin));
      BuildChunks();
    }

    function NumChunksLeft(): int
      reads this
    {
      |chunks| - chunksSkip
    }

    function GetChunk(n: nat): SetInfo
      reads this
      requires n + chunksSkip < |chunks|
    {
      chunks[n + chunksSkip]
    }

    /** Rebuild the chunks of the remainder, dropping the done prefix of the linearization. */
    method BuildChunks()
      requires Covers() && chunks == [] && chunksSkip == 0
      modifies this`linearization, this`chunks
      ensures Valid() && Remaining() == old(Remaining())
    {
      while linearization != [] && linearization[0] !in todo
        invariant Covers() && Remaining() == old(Remaining()) && chunks == []
        decreases |linearization|
      {
        linearization := linearization[1..];
      }
      chunks := ChunkRemaining(g, linearization, todo);
    }

    /** Remove a subset of the remaining transactions. */
    method MarkDone(subset: set<nat>)
      requires Valid() && subset != {} && subset <= todo
      modifies this
      ensures Valid() && todo == old(todo) - subset
      ensures Remaining() == Filter(old(Remaining()), old(todo) - subset)
    {
      hide Distinct, Elems, PositiveSizes, Filter, Chunks;
      MarkDoneHasChunk(g, linearization, todo, subset);
      var n := |subset|;
      if GetChunk(0).transactions == subset {
        SkipFirstChunk(g, linearization, todo, subset);
        DistinctSuffix(linearization, n);
        todo := todo - subset;
        chunksSkip := chunksSkip + 1;
        linearization := linearization[n..];
        assert chunks[chunksSkip..] == old(chunks[chunksSkip..])[1..];
        ChunkSetsTail(g, old(Chunks(g, Remaining())));
      } else {
        MarkDoneRemaining(linearization, todo, subset);
        todo := todo - subset;
        chunks := [];
        chunksSkip := 0;
        BuildChunks();
      }
    }

    /** The shortest intersection of `subset` with prefixes of the remaining chunks that has a
        feerate not below that of `subset`. */
    method IntersectPrefixes(subset: SetInfo) returns (r: SetInfo, ghost index: nat)
      requires Valid() && subset.transactions <= todo && Exact(g, subset)
      ensures Exact(g, r) && (subset.transactions == {} ==> r == subset)
      ensures subset.transactions != {} ==>
                ShortestIntersection(g, Chunks(g, Remaining()), subset.transactions, index, r.transactions)
    {
      hide PrefixSet, SetRate, Distinct, Elems, PositiveSizes, Filter, Chunks;
      ghost var segs := Chunks(g, Remaining());
      ghost var s := subset.transactions;
      ChunkPrefixes(g, linearization, todo);
      var accumulator := SetInfo({}, EMPTY);
      NothingIntersected(g, segs, subset, accumulator);
      var i := 0;
      while i < NumChunksLeft() && accumulator.transactions != subset.transactions
        invariant 0 <= i <= |segs| && IntersectedSoFar(g, segs, subset, i, accumulator)
        decreases |segs| - i
      {
        var toAdd := GetChunk(i).transactions * subset.transactions;
        ghost var before := accumulator;
        assert toAdd == Elems(segs[i]) * s;
        if toAdd != {} {
          var more := SumRate(g, toAdd);
          accumulator := SetInfo(accumulator.transactions + toAdd, accumulator.feerate);
          if accumulator.transactions != subset.transactions {
            accumulator := SetInfo(accumulator.transactions,
                                   FeeFrac(accumulator.feerate.fee + more.fee, accumulator.feerate.size + more.size));
            IntersectMore(g, segs, subset, i, before, accumulator);
            if !Lower(accumulator.feerate, subset.feerate) { return accumulator, i + 1; }
          }
        }
        IntersectStep(g, segs, subset, i, before, accumulator);
        i := i + 1;
      }
      IntersectAll(g, segs, subset, i, accumulator);
      return subset, i;
    }
  }

  // ---- Correctness of IntersectPrefixes ----

  /** The chunks partition what remains. */
  ghost predicate Partition(segs: seq<seq<nat>>, todo: set<nat>) {
    && PrefixSet(segs, 0) == {} && PrefixSet(segs, |segs|) == todo
    && forall j {:trigger segs[j]} :: 0 <= j < |segs| ==>
         PrefixSet(segs, j + 1) == PrefixSet(segs, j) + Elems(segs[j]) && PrefixSet(segs, j) !! Elems(segs[j])
  }

  lemma {:induction false} ChunkPrefixes(g: Graph, lin: seq<nat>, todo: set<nat>)
    requires PositiveSizes(g) && Distinct(lin) && todo <= Elems(lin) && Elems(lin) <= g.used
    ensures Partition(Chunks(g, Filter(lin, todo)), todo)
  {
    var rem := Filter(lin, todo);
    var segs := Chunks(g, rem);
    RemainderElems(lin, todo);
    FilterDistinct(lin, todo);
    ChunksChunked(g, rem);
    assert segs[..0] == [] && segs[..|segs|] == segs;
    forall j | 0 <= j < |segs|
      ensures PrefixSet(segs, j + 1) == PrefixSet(segs, j) + Elems(segs[j]) && PrefixSet(segs, j) !! Elems(segs[j])
    {
      PrefixSetStep(segs, j);
      FlattenSplit(segs, j);
      DistinctSplit(Flatten(segs[..j]), Flatten(segs[j..]));
      SegInFlatten(segs[j..], 0);
    }
  }

  ghost predicate IntersectedSoFar(g: Graph, segs: seq<seq<nat>>, subset: SetInfo, i: nat, acc: SetInfo)
    requires i <= |segs|
  {
    && Partition(segs, PrefixSet(segs, |segs|)) && subset.transactions <= PrefixSet(segs, |segs|) && Exact(g, subset)
    && acc.transactions == subset.transactions * PrefixSet(segs, i)
    && (acc.transactions != subset.transactions ==>
        Exact(g, acc) && (acc.transactions == {} || Lower(acc.feerate, subset.feerate)))
    && forall j {:trigger PrefixSet(segs, j)} :: 0 <= j < i && subset.transactions * PrefixSet(segs, j) != {} ==>
         Lower(SetRate(g, subset.transactions * PrefixSet(segs, j)), subset.feerate)
  }

  lemma {:induction false} NothingIntersected(g: Graph, segs: seq<seq<nat>>, subset: SetInfo, acc: SetInfo)
    requires Partition(segs, PrefixSet(segs, |segs|)) && subset.transactions <= PrefixSet(segs, |segs|)
    requires Exact(g, subset)
    requires acc == SetInfo({}, EMPTY)
    ensures IntersectedSoFar(g, segs, subset, 0, acc)
  {
    SetSumEmpty(FeeOf(g));
    SetSumEmpty(SizeOf(g));
  }

  /** Adding a nonempty part of the next chunk keeps the accumulated feerate exact. */
  lemma {:induction false} IntersectMore(g: Graph, segs: seq<seq<nat>>, subset: SetInfo, i: nat, before: SetInfo,
      acc: SetInfo)
    requires i < |segs| && IntersectedSoFar(g, segs, subset, i, before) && before.transactions != subset.transactions
    requires var part := Elems(segs[i]) * subset.transactions; part != {} && acc == SetInfo(before.transactions + part,
               FeeFrac(before.feerate.fee + SetRate(g, part).fee, before.feerate.size + SetRate(g, part).size))
    ensures Exact(g, acc) && acc.transactions == subset.transactions * PrefixSet(segs, i + 1)
    ensures !Lower(acc.feerate, subset.feerate) ==>
            ShortestIntersection(g, segs, subset.transactions, i + 1, acc.transactions)
  {
    hide SetRate, Elems, PrefixSet;
    var part := Elems(segs[i]) * subset.transactions;
    SetRateUnion(g, before.transactions, part);
    IntersectPast(g, segs, subset, i, before);
  }

  lemma {:induction false} IntersectPast(g: Graph, segs: seq<seq<nat>>, subset: SetInfo, i: nat, before: SetInfo)
    requires i < |segs| && IntersectedSoFar(g, segs, subset, i, before) && before.transactions != subset.transactions
    ensures forall j {:trigger PrefixSet(segs, j)} ::
            0 <= j < i + 1 && subset.transactions * PrefixSet(segs, j) != {} ==>
         Lower(SetRate(g, subset.transactions * PrefixSet(segs, j)), subset.feerate)
  {
  }

  lemma {:induction false} IntersectStep(g: Graph, segs: seq<seq<nat>>, subset: SetInfo, i: nat, before: SetInfo,
      acc: SetInfo)
    requires i < |segs| && IntersectedSoFar(g, segs, subset, i, before) && before.transactions != subset.transactions
    requires var part := Elems(segs[i]) * subset.transactions;
             if part == {} then acc == before
             else acc.transactions == before.transactions + part
                  && (acc.transactions != subset.transactions ==> Exact(g, acc) && Lower(acc.feerate, subset.feerate))
    ensures IntersectedSoFar(g, segs, subset, i + 1, acc)
  {
    hide SetRate, Elems, PrefixSet;
    IntersectPast(g, segs, subset, i, before);
    var part := Elems(segs[i]) * subset.transactions;
    assert PrefixSet(segs, i + 1) == PrefixSet(segs, i) + Elems(segs[i]);
    assert subset.transactions * PrefixSet(segs, i + 1) == before.transactions + part;
  }

  lemma {:induction false} IntersectAll(g: Graph, segs: seq<seq<nat>>, subset: SetInfo, i: nat, acc: SetInfo)
    requires i <= |segs| && IntersectedSoFar(g, segs, subset, i, acc)
    requires i == |segs| || acc.transactions == subset.transactions
    ensures subset.transactions != {} ==> ShortestIntersection(g, segs, subset.transactions, i, subset.transactions)
  {
    hide SetRate, PrefixSet;
    assert subset.transactions * PrefixSet(segs, |segs|) == subset.transactions;
  }

  lemma {:induction false} ChunkSetsTail(g: Graph, segs: seq<seq<nat>>)
    requires segs != []
    ensures ChunkSets(g, segs)[1..] == ChunkSets(g, segs[1..])
  {
  }

  lemma {:induction false} DistinctSuffix(lin: seq<nat>, n: nat)
    requires Distinct(lin) && n <= |lin|
    ensures Distinct(lin[n..]) && Elems(lin[n..]) <= Elems(lin)
  {
  }

  lemma {:induction false} MarkDoneRemaining(lin: seq<nat>, todo: set<nat>, subset: set<nat>)
    ensures Filter(lin, todo - subset) == Filter(Filter(lin, todo), todo - subset)
  {
    FilterFilter(lin, todo, todo - subset);
    assert todo * (todo - subset) == todo - subset;
  }

  lemma {:induction false} MarkDoneHasChunk(g: Graph, lin: seq<nat>, todo: set<nat>, subset: set<nat>)
    requires PositiveSizes(g) && Elems(lin) <= g.used && todo <= Elems(lin) && subset != {} && subset <= todo
    ensures Chunks(g, Filter(lin, todo)) != []
  {
    assert Elems(Filter(lin, todo)) == todo;
    var x :| x in subset;
    assert x in Elems(Filter(lin, todo));
    ChunksNonempty(g, Filter(lin, todo));
  }

  lemma {:induction false} FilterSnoc(lin: seq<nat>, i: nat, keep: set<nat>)
    requires i < |lin|
    ensures Filter(lin[..i + 1], keep) == Filter(lin[..i], keep) + (if lin[i] in keep then [lin[i]] else [])
  {
    assert lin[..i + 1] == lin[..i] + [lin[i]];
    FilterConcat(lin[..i], [lin[i]], keep);
    assert [lin[i]][1..] == [];
    assert Filter([], keep) == [];
  }

  lemma {:induction false} ChunksSnoc(g: Graph, a: seq<nat>, x: nat)
    ensures Chunks(g, a + [x]) == Absorb(g, Chunks(g, a), [x])
  {
    assert (a + [x])[..|a|] == a;
  }
}
