/** Finding or improving the linearization of a cluster (src/cluster_linearize.h, Linearize). */
module Linearization {
  import opened FeeFracs
  import opened Sums
  import opened DepGraphs
  import opened Chunking
  import opened Diagrams
  import opened LinearizationChunkings
  import opened Merging
  import opened AncestorFinders
  import opened SearchTheory
  import opened Searching
  import opened SearchFinders
  import opened Powers

  // ---- Optimality, one best candidate at a time ----

  /** However `todo` is ordered optimally after `ret`, the whole is optimal: a closed set either
      weighs no more than a prefix of `ret`, or no more than `ret` and its own part of `todo`. */
  ghost predicate OptimalSoFar(g: Graph, ret: seq<nat>, todo: set<nat>) {
    forall l: FeeFrac, s {:trigger SetSum(Slope(g, l), s)} :: l.size > 0 && Closed(g, s, g.used) ==>
        BoundedBy(Slope(g, l), ret, s, todo)
  }

  ghost predicate BoundedBy(w: Weight, ret: seq<nat>, s: set<nat>, todo: set<nat>) {
    SetSum(w, s) <= MaxPrefix(w, ret) || SetSum(w, s) <= SeqSum(w, ret) + SetSum(w, s * todo)
  }

  lemma {:induction false} OptimalStart(g: Graph)
    ensures OptimalSoFar(g, [], g.used)
  {
    forall l: FeeFrac, s | l.size > 0 && Closed(g, s, g.used) ensures BoundedBy(Slope(g, l), [], s, g.used) {
      assert s * g.used == s;
    }
  }

  lemma {:induction false} OptimalDone(g: Graph, ret: seq<nat>)
    requires OptimalSoFar(g, ret, {})
    ensures Optimal(g, ret, g.used)
  {
    hide SetSum, SeqSum, MaxPrefix, Closed;
    forall l: FeeFrac, s | l.size > 0
        && Closed(g, s, g.used) ensures SetSum(Slope(g, l), s) <= MaxPrefix(Slope(g, l), ret) {
      assert BoundedBy(Slope(g, l), ret, s, {});
      assert s * {} == {};
      SetSumEmpty(Slope(g, l));
      assert ret + [] == ret;
      MaxPrefixBeyond(Slope(g, l), ret, []);
    }
  }

  /** At any slope, adding a best candidate to a closed set makes it no lighter; or no closed set
      weighs anything. */
  lemma {:induction false} BestAbsorbs(g: Graph, b: set<nat>, todo: set<nat>, s: set<nat>, l: FeeFrac)
    requires PositiveSizes(g) && todo <= g.used && BestCandidate(g, b, todo) && Closed(g, s, todo) && l.size > 0
    ensures SetSum(Slope(g, l), s) <= 0 || SetSum(Slope(g, l), s) <= SetSum(Slope(g, l), b) + SetSum(Slope(g, l), s - b)
  {
    hide SetSum, SetRate;
    var rb, w := SetRate(g, b), Slope(g, l);
    SetSizePositive(g, b);
    if Excess(l, rb) >= 0 {
      RestNotLighter(g, b, todo, s, l);
      SetSumSplit(w, b, s);
      SetSumSplit(w, s, b);
      assert b * s == s * b;
    } else if s == {} {
      SetSumEmpty(w);
    } else {
      assert Candidate(g, s, todo);
      SetSizePositive(g, s);
      SetExcess(g, rb, s);
      SetExcess(g, l, s);
      FlatterTrans(l, rb, SetRate(g, s));
    }
  }

  lemma {:induction false} RestNotLighter(g: Graph, b: set<nat>, todo: set<nat>, s: set<nat>, l: FeeFrac)
    requires PositiveSizes(g) && todo <= g.used && BestCandidate(g, b, todo) && Closed(g, s, todo) && l.size > 0
    requires Excess(l, SetRate(g, b)) >= 0
    ensures SetSum(Slope(g, l), b - s) >= 0
  {
    hide SetSum, SetRate;
    var rb := SetRate(g, b);
    SetSizePositive(g, b);
    SetExcess(g, rb, b);
    SelfExcess(rb);
    SetSumSplit(Slope(g, rb), b, s);
    PartNotHeavier(g, b, todo, s);
    if b - s == {} {
      SetSumEmpty(Slope(g, l));
    } else {
      SetSizePositive(g, b - s);
      SetExcess(g, rb, b - s);
      SteeperTrans(l, rb, SetRate(g, b - s));
      SetExcess(g, l, b - s);
    }
  }

  /** The part of a best candidate in a closed set has no higher feerate. */
  lemma {:induction false} PartNotHeavier(g: Graph, b: set<nat>, todo: set<nat>, s: set<nat>)
    requires BestCandidate(g, b, todo) && Closed(g, s, todo)
    ensures SetSum(Slope(g, SetRate(g, b)), b * s) <= 0
  {
    hide SetSum, SetRate;
    if b * s == {} {
      SetSumEmpty(Slope(g, SetRate(g, b)));
    } else {
      ClosedUnion(g, b, s, todo);
      assert Candidate(g, b * s, todo);
    }
  }

  lemma {:induction false} OptimalStep(g: Graph, ret: seq<nat>, todo: set<nat>, b: set<nat>, t: seq<nat>)
    requires PositiveSizes(g) && todo <= g.used && OptimalSoFar(g, ret, todo) && BestCandidate(g, b, todo)
    requires Linearizes(g, t, b)
    ensures OptimalSoFar(g, ret + t, todo - b)
  {
    hide SetSum, SeqSum, MaxPrefix, BestCandidate, SetRate, Linearizes, PositiveSizes;
    forall l: FeeFrac, s | l.size > 0 && Closed(g, s, g.used) ensures BoundedBy(Slope(g, l), ret + t, s, todo - b) {
      var w := Slope(g, l);
      assert BoundedBy(w, ret, s, todo);
      assert Closed(g, s * todo, todo);
      BestAbsorbs(g, b, todo, s * todo, l);
      assert s * todo - b == s * (todo - b);
      SeqSumConcat(w, ret, t);
      TailSum(g, w, t, b);
      MaxPrefixConcat(w, ret, t);
      MaxPrefixBeyond(w, ret, t);
    }
  }

  lemma {:induction false} TailSum(g: Graph, w: Weight, t: seq<nat>, b: set<nat>)
    requires Linearizes(g, t, b)
    ensures SeqSum(w, t) == SetSum(w, b)
  {
    SeqSumElems(w, t);
  }

  // ---- Not getting worse than the old linearization ----

  /** A best candidate can be moved to the front of any linearization. */
  lemma {:induction false} BestMovable(g: Graph, b: set<nat>, todo: set<nat>, rem: seq<nat>)
    requires PositiveSizes(g) && todo <= g.used && todo != {} && Linearizes(g, rem, todo) && BestCandidate(g, b, todo)
    ensures Movable(g, b, Chunks(g, rem))
  {
    hide SetSum, SetRate, Linearizes, Chunks, Elems;
    var segs, rb := Chunks(g, rem), SetRate(g, b);
    ChunksWhileTodo(g, rem, todo);
    RemChunked(g, rem, todo);
    FirstChunkPrefix(segs);
    BoundaryClosed(g, rem, todo, segs, 1);
    assert Candidate(g, Elems(segs[0]), todo);
    SetExcess(g, rb, Elems(segs[0]));
    forall j | 0 <= j <= |segs| ensures Excess(rb, SetRate(g, b * PrefixSet(segs, j))) <= 0 {
      BoundaryClosed(g, rem, todo, segs, j);
      PartNotHeavier(g, b, todo, PrefixSet(segs, j));
      SetExcess(g, rb, b * PrefixSet(segs, j));
    }
  }

  lemma {:induction false} RemChunked(g: Graph, rem: seq<nat>, todo: set<nat>)
    requires PositiveSizes(g) && todo <= g.used && Linearizes(g, rem, todo)
    ensures Chunked(g, Chunks(g, rem)) && Flatten(Chunks(g, rem)) == rem && Elems(rem) == todo
  {
    ChunksChunked(g, rem);
  }

  /** The shortest good intersection of a candidate no worse than the first chunk is a candidate,
      and can be moved to the front. */
  lemma {:induction false} IntersectedChoice(g: Graph, rem: seq<nat>, todo: set<nat>, s: set<nat>, i: nat, r: set<nat>)
    requires PositiveSizes(g) && todo <= g.used && todo != {} && Linearizes(g, rem, todo) && Candidate(g, s, todo)
    requires Chunks(g, rem) != [] && !Lower(SetRate(g, s), SeqRate(g, Chunks(g, rem)[0]))
    requires ShortestIntersection(g, Chunks(g, rem), s, i, r)
    ensures Candidate(g, r, todo) && Movable(g, r, Chunks(g, rem))
  {
    hide SetRate, Linearizes, Chunks, Elems, SeqRate;
    var segs := Chunks(g, rem);
    RemChunked(g, rem, todo);
    BoundaryClosed(g, rem, todo, segs, i);
    ClosedUnion(g, s, PrefixSet(segs, i), todo);
    IntersectionMovable(g, segs, s, i, r);
  }

  // ---- One round ----

  ghost predicate Synced(g: Graph, anc: AncestorCandidateFinder, src: SearchCandidateFinder?,
      oldChunking: LinearizationChunking, hasOld: bool)
    reads anc, src, oldChunking
  {
    && anc.g == g && anc.Valid()
    && (src != null ==> src.g == g && src.Valid() && src.Remaining() == anc.todo)
    && oldChunking.g == g && oldChunking.Valid()
        && if hasOld then oldChunking.todo == anc.todo else oldChunking.NumChunksLeft() == 0
  }

  /** The candidate to start from: the best ancestor set, or the first chunk of what remains of the
      old linearization if that is not worse. */
  method InitialSet(anc: AncestorCandidateFinder, oldChunking: LinearizationChunking, ghost hasOld: bool)
      returns (best: SetInfo)
    requires Cluster(anc.g) && anc.todo != {} && Synced(anc.g, anc, null, oldChunking, hasOld)
    requires hasOld ==> Linearizes(anc.g, oldChunking.Remaining(), anc.todo)
    ensures Exact(anc.g, best) && Candidate(anc.g, best.transactions, anc.todo) && best.feerate.size > 0
    ensures hasOld ==> oldChunking.NumChunksLeft() > 0 && Chunks(anc.g, oldChunking.Remaining()) != []
    ensures hasOld ==> NotWorse(best.feerate, SeqRate(anc.g, Chunks(anc.g, oldChunking.Remaining())[0]))
  {
    hide *;
    ghost var g, todo, rem := anc.g, anc.todo, oldChunking.Remaining();
    SyncedFacts(anc, null, oldChunking, hasOld);
    best := anc.FindCandidateSet();
    IsCandidate(g, best, todo);
    if hasOld { FirstChunkFacts(oldChunking, todo); }
    if oldChunking.NumChunksLeft() > 0 {
      var prefix := oldChunking.GetChunk(0);
      if !IsEmpty(prefix.feerate) && !Better(best.feerate, prefix.feerate) {
        best := prefix;
        SelfNotWorse(prefix.feerate);
      } else {
        BetterNotWorse(best.feerate, prefix.feerate);
      }
    }
  }

  lemma {:induction false} BetterNotWorse(a: FeeFrac, b: FeeFrac)
    ensures Better(a, b) ==> NotWorse(a, b)
  {
  }

  lemma {:induction false} NotWorseNotLower(a: FeeFrac, b: FeeFrac)
    requires NotWorse(a, b)
    ensures !Lower(a, b)
  {
  }

  lemma {:induction false} IsCandidate(g: Graph, s: SetInfo, todo: set<nat>)
    requires PositiveSizes(g) && todo <= g.used && Exact(g, s) && s.transactions != {}
    requires Closed(g, s.transactions, todo)
    ensures Candidate(g, s.transactions, todo) && s.feerate.size > 0 && !IsEmpty(s.feerate)
  {
    SetSizePositive(g, s.transactions);
  }

  lemma {:induction false} ExactRate(g: Graph, s: SetInfo)
    requires Exact(g, s)
    ensures SetRate(g, s.transactions) == s.feerate
  {
  }

  lemma {:induction false} SyncedFacts(anc: AncestorCandidateFinder, src: SearchCandidateFinder?,
      oldChunking: LinearizationChunking, hasOld: bool)
    requires Cluster(anc.g) && Synced(anc.g, anc, src, oldChunking, hasOld)
    ensures anc.Valid() && WellFormed(anc.g) && Acyclic(anc.g) && PositiveSizes(anc.g)
    ensures anc.todo <= anc.g.used && oldChunking.Valid() && oldChunking.g == anc.g
    ensures src != null ==> src.g == anc.g && src.Valid() && src.Remaining() == anc.todo
    ensures if hasOld then oldChunking.todo == anc.todo else oldChunking.NumChunksLeft() == 0
    ensures Synced(anc.g, anc, null, oldChunking, hasOld)
    ensures oldChunking.NumChunksLeft() == |oldChunking.chunks| - oldChunking.chunksSkip
  {
  }

  lemma {:induction false} FirstChunkFacts(c: LinearizationChunking, todo: set<nat>)
    requires c.Valid() && PositiveSizes(c.g) && todo <= c.g.used && todo != {} && Linearizes(c.g, c.Remaining(), todo)
    ensures c.NumChunksLeft() > 0 && Chunks(c.g, c.Remaining()) != []
    ensures Exact(c.g, c.GetChunk(0)) && Candidate(c.g, c.GetChunk(0).transactions, todo)
    ensures c.GetChunk(0).feerate.size > 0
    ensures !IsEmpty(c.GetChunk(0).feerate) && c.GetChunk(0).feerate == SeqRate(c.g, Chunks(c.g, c.Remaining())[0])
  {
    hide SetRate, SeqRate, Linearizes, Chunks, Elems, Closed, PositiveSizes, Filter, Distinct;
    var g, rem := c.g, c.Remaining();
    var segs := Chunks(g, rem);
    ChunksWhileTodo(g, rem, todo);
    RemChunked(g, rem, todo);
    FirstChunkPrefix(segs);
    BoundaryClosed(g, rem, todo, segs, 1);
    assert |ChunkSets(g, segs)| == |segs|;
    assert c.chunks[c.chunksSkip..][0] == c.GetChunk(0);
    IsCandidate(g, c.GetChunk(0), todo);
  }

  // ---- How many iterations are enough ----

  /** What constructing the search finder, and one search among n transactions, is taken to cost. */
  function StartCost(n: nat): nat {
    (n * n + 63) / 64
  }

  function RoundCost(n: nat): nat {
    (n + 3) / 4
  }

  /** Iterations that are enough to linearize n transactions optimally. */
  ghost function Enough(n: nat): nat {
    n * RoundCost(n) + 2 * Pow2(n)
  }

  /** They are enough for one search, with half of them, and leave enough for any smaller remainder. */
  lemma {:induction false} EnoughStep(n: nat, k: nat)
    requires k < n
    ensures Enough(n) >= RoundCost(n) + 2 * Pow2(n)
    ensures Enough(n) + 1 >= RoundCost(n) + Pow2(n) + Enough(k)
  {
    Pow2Order(k, n);
    hide Pow2;
    var c, d := RoundCost(n), RoundCost(k);
    assert n * c == (n - 1) * c + c;
    MulMono(n - 1, d, c);
    MulMono(d, k, n - 1);
    assert d * k == k * d && d * (n - 1) == (n - 1) * d;
  }

  /** Choose the next set to output: a candidate that can be moved to the front of the old
      linearization, and one of highest feerate if `optimal`. */
  method ChooseBest(anc: AncestorCandidateFinder, src: SearchCandidateFinder?, oldChunking: LinearizationChunking,
      left0: nat, ghost hasOld: bool)
    returns (best: SetInfo, left: nat, optimal: bool)
    requires Cluster(anc.g) && anc.todo != {} && Synced(anc.g, anc, src, oldChunking, hasOld)
    requires hasOld ==> Linearizes(anc.g, oldChunking.Remaining(), anc.todo)
    ensures Candidate(anc.g, best.transactions, anc.todo) && left <= left0
    ensures hasOld ==> Movable(anc.g, best.transactions, Chunks(anc.g, oldChunking.Remaining()))
    ensures optimal ==> BestCandidate(anc.g, best.transactions, anc.todo)
    ensures src == null ==> !optimal
    ensures src != null && left0 >= RoundCost(|anc.todo|) + 2 * Pow2(|anc.todo|) ==>
              optimal && left + RoundCost(|anc.todo|) + Pow2(|anc.todo|) > left0
  {
    hide *;
    ghost var g, todo, rem := anc.g, anc.todo, oldChunking.Remaining();
    SyncedFacts(anc, src, oldChunking, hasOld);
    best := InitialSet(anc, oldChunking, hasOld);
    left, optimal := left0, true;
    var doneNow, maxNow := 0, 0;
    if src != null {
      var baseIterations := RoundCost(|anc.todo|);
      if left > baseIterations {
        left := left - baseIterations;
        maxNow := (left + 1) / 2;
        CandidateWithin(g, best.transactions, todo);
        ghost var start := best;
        IsCandidate(g, best, todo);
        best, doneNow := src.FindCandidateSet(maxNow, best);
        left := left - doneNow;
        CandidateWithin(g, best.transactions, todo);
        IsCandidate(g, best, todo);
        if hasOld {
          FirstChunkFacts(oldChunking, todo);
          NotWorseTrans(best.feerate, start.feerate, SeqRate(g, Chunks(g, rem)[0]));
        }
      }
    }
    if doneNow == maxNow {
      optimal := false;
      if oldChunking.NumChunksLeft() > 0 {
        ghost var s := best.transactions;
        CandidateWithin(g, s, todo);
        ghost var i;
        NotWorseNotLower(best.feerate, SeqRate(g, Chunks(g, rem)[0]));
        ExactRate(g, best);
        best, i := oldChunking.IntersectPrefixes(best);
        IntersectedChoice(g, rem, todo, s, i, best.transactions);
      }
    } else if hasOld {
      BestMovable(g, best.transactions, todo, rem);
    }
  }

  /** `ret` has been output and `todo` remains; `rem` of the old linearization would complete it
      without making it worse. */
  ghost predicate Output(g: Graph, ret: seq<nat>, todo: set<nat>, rem: seq<nat>, oldLin: seq<nat>) {
    && todo <= g.used && Closed(g, g.used - todo, g.used) && Linearizes(g, ret, g.used - todo)
    && (oldLin != [] ==> Progress(g, ret, rem, oldLin, todo))
  }

  lemma {:induction false} OutputStart(g: Graph, rem: seq<nat>, oldLin: seq<nat>)
    requires oldLin != [] ==> Linearizes(g, oldLin, g.used) && rem == oldLin
    ensures Output(g, [], g.used, rem, oldLin)
  {
    hide Progress;
    assert g.used - g.used == {};
    if oldLin != [] { ProgressStart(g, oldLin); }
  }

  lemma {:induction false} OutputStep(g: Graph, ret: seq<nat>, todo: set<nat>, rem: seq<nat>, oldLin: seq<nat>,
      r: set<nat>, t: seq<nat>, rem': seq<nat>)
    requires PositiveSizes(g) && Output(g, ret, todo, rem, oldLin) && Candidate(g, r, todo) && Linearizes(g, t, r)
    requires oldLin != [] ==> Movable(g, r, Chunks(g, rem)) && rem' == Filter(rem, todo - r)
    ensures Output(g, ret + t, todo - r, rem', oldLin) && |todo - r| < |todo| && r <= todo
  {
    hide Progress, Linearizes, Movable, Chunks, Filter, PositiveSizes;
    assert g.used - (todo - r) == (g.used - todo) + r;
    OutputLinearizes(g, ret, t, todo, r);
    if oldLin != [] { ProgressStep(g, ret, rem, oldLin, todo, r, t); }
    var x :| x in r;
    SubsetCard(todo - r, todo - {x});
  }

  lemma {:induction false} OutputDone(g: Graph, ret: seq<nat>, rem: seq<nat>, oldLin: seq<nat>)
    requires Output(g, ret, {}, rem, oldLin)
    ensures Linearizes(g, ret, g.used) && (oldLin != [] ==> AsGood(g, ret, oldLin))
  {
    hide Progress, Linearizes, AsGood;
    assert g.used - {} == g.used;
    if oldLin != [] { ProgressDone(g, ret, rem, oldLin); }
  }

  lemma {:induction false} OutputRemaining(g: Graph, ret: seq<nat>, todo: set<nat>, rem: seq<nat>, oldLin: seq<nat>)
    requires Output(g, ret, todo, rem, oldLin)
    ensures todo <= g.used && (oldLin != [] ==> Linearizes(g, rem, todo))
  {
  }

  /** One round: output one set, and mark it done. */
  method Round(anc: AncestorCandidateFinder, src: SearchCandidateFinder?, oldChunking: LinearizationChunking,
      before: seq<nat>, left0: nat, ghost oldLin: seq<nat>)
    returns (ret: seq<nat>, left: nat, optimal: bool)
    requires Cluster(anc.g) && anc.todo != {} && Synced(anc.g, anc, src, oldChunking, oldLin != [])
    requires Output(anc.g, before, anc.todo, oldChunking.Remaining(), oldLin)
    modifies anc, src, oldChunking
    ensures Synced(anc.g, anc, src, oldChunking, oldLin != []) && |anc.todo| < old(|anc.todo|) && left <= left0
    ensures Output(anc.g, ret, anc.todo, oldChunking.Remaining(), oldLin)
    ensures optimal && old(OptimalSoFar(anc.g, before, anc.todo)) ==> OptimalSoFar(anc.g, ret, anc.todo)
    ensures src == null ==> !optimal
    ensures src != null && left0 >= Enough(old(|anc.todo|)) ==> optimal && left >= Enough(|anc.todo|)
  {
    hide *;
    ghost var g, todo, rem := anc.g, anc.todo, oldChunking.Remaining();
    OutputRemaining(g, before, todo, rem, oldLin);
    SyncedFacts(anc, src, oldChunking, oldLin != []);
    var best;
    best, left, optimal := ChooseBest(anc, src, oldChunking, left0, oldLin != []);
    var r := best.transactions;
    CandidateWithin(g, r, todo);
    ret := AppendTopo(anc.g, before, r);
    ghost var t := ret[|before|..];
    assert ret == before + t;
    anc.MarkDone(r);
    if src != null { src.MarkDone(r); }
    if oldLin != [] { HasChunks(oldChunking, todo); }
    if oldChunking.NumChunksLeft() > 0 { oldChunking.MarkDone(r); }
    OutputStep(g, before, todo, rem, oldLin, r, t, oldChunking.Remaining());
    if optimal && OptimalSoFar(g, before, todo) { OptimalStep(g, before, todo, r, t); }
    IsSynced(g, anc, src, oldChunking, oldLin != []);
    EnoughStep(|todo|, |anc.todo|);
  }

  lemma {:induction false} IsSynced(g: Graph, anc: AncestorCandidateFinder, src: SearchCandidateFinder?,
      oldChunking: LinearizationChunking, hasOld: bool)
    requires anc.g == g && anc.Valid() && (src != null ==> src.g == g && src.Valid() && src.Remaining() == anc.todo)
    requires oldChunking.g == g && oldChunking.Valid()
    requires if hasOld then oldChunking.todo == anc.todo else oldChunking.NumChunksLeft() == 0
    ensures Synced(g, anc, src, oldChunking, hasOld)
  {
  }

  lemma {:induction false} HasChunks(c: LinearizationChunking, todo: set<nat>)
    requires c.Valid() && PositiveSizes(c.g) && todo <= c.g.used && todo != {} && Linearizes(c.g, c.Remaining(), todo)
    ensures c.NumChunksLeft() > 0
  {
    hide *;
    FirstChunkFacts(c, todo);
  }

  /** Linearize a cluster. The result is topologically valid, at least as good as the old
      linearization, and optimal if it says so. It does so if it is given enough iterations, and does
      not if there are too few for a search. */
  method Linearize(g: Graph, maxIterations: nat, oldLin: seq<nat>) returns (ret: seq<nat>, optimal: bool)
    requires Cluster(g) && (oldLin != [] ==> Linearizes(g, oldLin, g.used))
    ensures Linearizes(g, ret, g.used)
    ensures oldLin != [] ==> AsGood(g, ret, oldLin)
    ensures optimal ==> Optimal(g, ret, g.used)
    ensures maxIterations >= StartCost(|g.used|) + Enough(|g.used|) ==> optimal
    ensures g.used != {} && maxIterations <= StartCost(|g.used|) ==> !optimal
  {
    hide *;
    OptimalStart(g);
    if g.used == {} {
      OutputStart(g, oldLin, oldLin);
      OutputDone(g, [], oldLin, oldLin);
      OptimalDone(g, []);
      return [], true;
    }
    ClusterFacts(g);
    OldShape(g, oldLin);
    var left: nat := maxIterations;
    var anc := new AncestorCandidateFinder(g);
    var src: SearchCandidateFinder? := null;
    var startIterations := StartCost(|g.used|);
    EnoughPositive(|g.used|);
    if left > startIterations {
      left := left - startIterations;
      src := new SearchCandidateFinder(g);
    }
    var oldChunking := new LinearizationChunking(g, oldLin);
    NoChunks(oldChunking, oldLin);
    IsSynced(g, anc, src, oldChunking, oldLin != []);
    ret, optimal := [], true;
    OutputStart(g, oldChunking.Remaining(), oldLin);
    while anc.todo != {}
      invariant fresh(anc) && fresh(oldChunking) && (src != null ==> fresh(src)) && anc.g == g
      invariant Synced(g, anc, src, oldChunking, oldLin != [])
      invariant Output(g, ret, anc.todo, oldChunking.Remaining(), oldLin)
      invariant optimal ==> OptimalSoFar(g, ret, anc.todo)
      invariant src == null <==> maxIterations <= startIterations
      invariant src == null ==> !optimal || anc.todo == g.used
      invariant maxIterations >= startIterations + Enough(|g.used|) ==> optimal && left >= Enough(|anc.todo|)
      decreases |anc.todo|
    {
      var sure;
      ret, left, sure := Round(anc, src, oldChunking, ret, left, oldLin);
      optimal := optimal && sure;
    }
    OutputDone(g, ret, oldChunking.Remaining(), oldLin);
    if optimal { OptimalDone(g, ret); }
  }

  lemma {:induction false} EnoughPositive(n: nat)
    ensures Enough(n) > 0
  {
    hide Pow2, RoundCost;
    MulMono(n, 0, RoundCost(n));
  }

  lemma {:induction false} OldShape(g: Graph, oldLin: seq<nat>)
    requires oldLin != [] ==> Linearizes(g, oldLin, g.used)
    ensures Distinct(oldLin) && Elems(oldLin) <= g.used && (oldLin != [] ==> Elems(oldLin) == g.used)
  {
  }

  lemma {:induction false} NoChunks(c: LinearizationChunking, oldLin: seq<nat>)
    requires c.Valid() && c.Remaining() == oldLin
    ensures oldLin == [] ==> c.NumChunksLeft() == 0
  {
  }
}
