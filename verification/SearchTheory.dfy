/** Why the branch-and-bound search for candidate sets is exact
    (src/cluster_linearize.h, SearchCandidateFinder::FindCandidateSet). */
module SearchTheory {
  import opened FeeFracs
  import opened Sums
  import opened DepGraphs
  import opened DepGraphObjects
  import opened LinearizationChunkings
  import opened Powers

  /** A set the search may return. */
  ghost predicate Candidate(h: Graph, s: set<nat>, todo: set<nat>) {
    s != {} && Closed(h, s, todo)
  }

  /** No candidate has a higher feerate than `o`. */
  ghost predicate BestCandidate(h: Graph, o: set<nat>, todo: set<nat>) {
    && Candidate(h, o, todo)
    && forall s {:trigger Candidate(h, s, todo)} :: Candidate(h, s, todo) ==> SetSum(Slope(h, SetRate(h, o)), s) <= 0
  }

  lemma {:induction false} BestAmong(h: Graph, todo: set<nat>, pool: set<set<nat>>) returns (o: set<nat>)
    requires PositiveSizes(h) && todo <= h.used && pool != {} && forall s :: s in pool ==> Candidate(h, s, todo)
    ensures o in pool && forall s :: s in pool ==> Excess(SetRate(h, o), SetRate(h, s)) <= 0
  {
    o :| o in pool;
    if pool != {o} {
      var p := BestAmong(h, todo, pool - {o});
      var first := o;
      SetSizePositive(h, o);
      SetSizePositive(h, p);
      if Excess(SetRate(h, o), SetRate(h, p)) > 0 { o := p; }
      forall s | s in pool ensures Excess(SetRate(h, o), SetRate(h, s)) <= 0 {
        if s != first {
          assert s in pool - {first};
          SetSizePositive(h, s);
          FlatterTrans(SetRate(h, o), SetRate(h, p), SetRate(h, s));
        }
      }
    }
  }

  lemma {:induction false} BestCandidateExists(h: Graph, todo: set<nat>) returns (o: set<nat>)
    requires PositiveSizes(h) && todo <= h.used && todo != {}
    ensures BestCandidate(h, o, todo)
  {
    var pool := set s | s <= todo && Candidate(h, s, todo);
    assert Candidate(h, todo, todo) && todo in pool;
    o := BestAmong(h, todo, pool);
    forall s | Candidate(h, s, todo) ensures SetSum(Slope(h, SetRate(h, o)), s) <= 0 {
      assert s in pool;
      SetExcess(h, SetRate(h, o), s);
    }
  }

  /** The transactions of `todo` with a higher feerate than `best`. */
  ghost predicate Improvers(h: Graph, imp: set<nat>, todo: set<nat>, best: FeeFrac) {
    imp <= todo && forall t {:trigger t in imp} :: t in todo ==> (t in imp <==> Higher(FeeRate(h, t), best))
  }

  /** Positions are in order of decreasing feerate. */
  ghost predicate ByFeerate(h: Graph) {
    forall i, j {:trigger FeeRate(h, i), FeeRate(h, j)} :: i in h.used && j in h.used && i < j ==>
        Excess(FeeRate(h, i), FeeRate(h, j)) <= 0
  }

  // ---- The potential of a work item ----

  /** `pot` extends `inc` by those undecided improvers that raise its feerate. */
  ghost predicate Potential(h: Graph, inc: set<nat>, und: set<nat>, imp: set<nat>, pot: SetInfo) {
    && Exact(h, pot) && inc <= pot.transactions && pot.transactions - inc <= imp * und
    && (forall e {:trigger e in pot.transactions} :: e in pot.transactions - inc ==> Higher(FeeRate(h, e), pot.feerate))
    && (forall e {:trigger e in imp} :: e in imp * und - pot.transactions ==> !Higher(FeeRate(h, e), pot.feerate))
  }

  /** If at slope `l` everything `pot` added is not light and everything it left out is not heavy,
      no set between `inc` and `inc + und` is heavier than `pot`. */
  lemma {:induction false} PotentialHeaviest(w: Weight, inc: set<nat>, und: set<nat>, pot: set<nat>, b: set<nat>)
    requires inc <= pot && pot - inc <= und && inc <= b && b <= inc + und
    requires forall e :: e in pot - inc ==> w(e) >= 0
    requires forall e :: e in und - pot ==> w(e) <= 0
    ensures SetSum(w, b) <= SetSum(w, pot)
  {
    hide SetSum;
    SetSumSplit(w, b, pot);
    SetSumSplit(w, pot, b);
    assert b * pot == pot * b;
    SetSumSign(w, b - pot);
    SetSumSign(w, pot - b);
  }

  lemma {:induction false} SlopeIs(h: Graph, l: FeeFrac, e: nat)
    ensures Slope(h, l)(e) == Excess(l, FeeRate(h, e))
  {
  }

  /** The bound that justifies pruning: a set compatible with a work item has at most the feerate
      of the item's potential, or of the best set found so far. */
  lemma {:induction false} PotentialBound(h: Graph, todo: set<nat>, inc: set<nat>, und: set<nat>, imp: set<nat>,
      pot: SetInfo, best: FeeFrac, b: set<nat>)
    requires PositiveSizes(h) && todo <= h.used && inc <= todo && und <= todo && inc != {}
    requires Improvers(h, imp, todo, best) && Potential(h, inc, und, imp, pot) && best.size > 0
    requires inc <= b && b <= inc + und
    ensures Excess(pot.feerate, SetRate(h, b)) <= 0 || Excess(best, SetRate(h, b)) <= 0
  {
    hide SetRate, SetSum;
    var p := pot.transactions;
    var rp := pot.feerate;
    assert p <= inc + (p - inc);
    SetSizePositive(h, p);
    SetSizePositive(h, b);
    var l := if Excess(best, rp) >= 0 then rp else best;
    forall e | e in p - inc ensures Slope(h, l)(e) >= 0 {
      SlopeIs(h, l, e);
      assert e in imp;
    }
    forall e | e in und - p ensures Slope(h, l)(e) <= 0 {
      LeftOutLight(h, todo, und, imp, inc, pot, best, e);
      SlopeIs(h, l, e);
    }
    PotentialHeaviest(Slope(h, l), inc, und, p, b);
    SetExcess(h, l, b);
    SetExcess(h, l, p);
  }

  lemma {:induction false} LeftOutLight(h: Graph, todo: set<nat>, und: set<nat>, imp: set<nat>, inc: set<nat>,
      pot: SetInfo, best: FeeFrac, e: nat)
    requires PositiveSizes(h) && todo <= h.used && und <= todo && best.size > 0 && pot.feerate.size > 0
    requires Improvers(h, imp, todo, best) && Potential(h, inc, und, imp, pot) && e in und - pot.transactions
    ensures Excess(if Excess(best, pot.feerate) >= 0 then pot.feerate else best, FeeRate(h, e)) <= 0
  {
    var rp, re := pot.feerate, FeeRate(h, e);
    ExcessAntisymmetric(best, rp);
    if Excess(best, rp) >= 0 {
      if e in imp {
        assert !Higher(re, rp);
      } else {
        assert !Higher(re, best);
        FlatterTrans(rp, best, re);
      }
    } else if e in imp {
      assert !Higher(re, rp) && Higher(re, best);
      FlatterTrans(best, rp, re);
      assert false;
    }
  }

  // ---- Jumping ahead ----

  /** Any closed part of the potential belongs to every best candidate compatible with the item. */
  lemma {:induction false} JumpAheadSafe(h: Graph, todo: set<nat>, inc: set<nat>, pot: SetInfo, t: set<nat>,
      o: set<nat>, b: set<nat>)
    requires PositiveSizes(h) && todo <= h.used && Exact(h, pot) && pot.transactions != {} && pot.transactions <= todo
    requires forall e {:trigger e in pot.transactions} :: e in pot.transactions - inc ==>
            Higher(FeeRate(h, e), pot.feerate)
    requires BestCandidate(h, o, todo) && Candidate(h, b, todo) && SetSum(Slope(h, SetRate(h, o)), b) == 0
    requires Excess(SetRate(h, o), pot.feerate) >= 0
    requires Closed(h, t, todo) && t <= pot.transactions && inc <= b
    ensures t <= b
  {
    hide SetRate, SetSum;
    var ro := SetRate(h, o);
    var w := Slope(h, ro);
    SetSizePositive(h, o);
    SetSizePositive(h, pot.transactions);
    ClosedUnion(h, t, b, todo);
    assert Candidate(h, t + b, todo);
    assert t + b == b + (t - b);
    SetSumUnion(w, b, t - b);
    forall e | e in t - b ensures w(e) > 0 {
      assert e in pot.transactions - inc;
      SlopeIs(h, ro, e);
      assert e in h.used && FeeRate(h, e).size > 0;
      SteeperTrans(ro, pot.feerate, FeeRate(h, e));
    }
    SetSumSign(w, t - b);
  }

  // ---- Coverage ----

  datatype WorkItem = WorkItem(inc: SetInfo, und: set<nat>, pot: FeeFrac)

  /** `b` lies between what the item includes and what it may still include. */
  ghost predicate Compatible(b: set<nat>, inc: set<nat>, und: set<nat>) {
    inc <= b && b <= inc + und
  }

  /** A best candidate is compatible with (inc, und). */
  ghost predicate Holds(h: Graph, todo: set<nat>, o: set<nat>, inc: set<nat>, und: set<nat>, b: set<nat>) {
    Candidate(h, b, todo) && SetSum(Slope(h, SetRate(h, o)), b) == 0 && Compatible(b, inc, und)
  }

  ghost predicate Reaches(h: Graph, todo: set<nat>, o: set<nat>, inc: set<nat>, und: set<nat>) {
    exists b {:trigger Holds(h, todo, o, inc, und, b)} :: Holds(h, todo, o, inc, und, b)
  }

  /** Some item of the queue can still lead to a best candidate. */
  ghost predicate Covers(h: Graph, todo: set<nat>, o: set<nat>, queue: seq<WorkItem>) {
    exists k {:trigger queue[k]} :: 0 <= k < |queue| && Reaches(h, todo, o, queue[k].inc.transactions, queue[k].und)
  }

  /** How many splits the items of a queue can still give rise to: 2^n - 1 for n undecided transactions. */
  ghost function Splits(queue: seq<WorkItem>): nat {
    if queue == [] then 0 else Splits(queue[..|queue| - 1]) + Pow2(|queue[|queue| - 1].und|) - 1
  }

  lemma {:induction false} SplitsAppend(queue: seq<WorkItem>, item: WorkItem)
    ensures Splits(queue + [item]) == Splits(queue) + Pow2(|item.und|) - 1
  {
    assert (queue + [item])[..|queue|] == queue;
  }

  lemma {:induction false} SplitsConcat(a: seq<WorkItem>, b: seq<WorkItem>)
    ensures Splits(a + b) == Splits(a) + Splits(b)
    decreases |b|
  {
    if b == [] {
      assert a + b == a;
    } else {
      var n := |b| - 1;
      assert (a + b)[..|a + b| - 1] == a + b[..n];
      SplitsConcat(a, b[..n]);
    }
  }

  /** Taking an item out. */
  lemma {:induction false} SplitsWithout(queue: seq<WorkItem>, k: nat)
    requires k < |queue|
    ensures Splits(queue) == Splits(queue[..k] + queue[k + 1..]) + Pow2(|queue[k].und|) - 1
  {
    hide Splits;
    assert queue == queue[..k] + [queue[k]] + queue[k + 1..];
    SplitsConcat(queue[..k] + [queue[k]], queue[k + 1..]);
    SplitsAppend(queue[..k], queue[k]);
    SplitsConcat(queue[..k], queue[k + 1..]);
  }

  /** Splitting on `t`: a best candidate either avoids `t` and its descendants or has `t` and its
      remaining ancestors. */
  lemma {:induction false} SplitReaches(h: Graph, todo: set<nat>, o: set<nat>, inc: set<nat>, und: set<nat>, t: nat)
    requires WellFormed(h) && todo <= h.used && inc <= todo && und <= todo && t in und && inc !! und
    requires Reaches(h, todo, o, inc, und)
    ensures Reaches(h, todo, o, inc, und - Desc(h, t))
            || Reaches(h, todo, o, inc + Anc(h, t) * todo, und - Anc(h, t) * todo)
  {
    hide SetSum;
    var b :| Holds(h, todo, o, inc, und, b);
    if t in b {
      assert Anc(h, t) * todo <= b;
      assert Holds(h, todo, o, inc + Anc(h, t) * todo, und - Anc(h, t) * todo, b);
    } else {
      forall x | x in b ensures x !in Desc(h, t) || x in inc {
        assert x in Desc(h, t) ==> t in Anc(h, x) * todo;
      }
      assert b <= inc + (und - Desc(h, t));
      assert Holds(h, todo, o, inc, und - Desc(h, t), b);
    }
  }

  /** Work item invariant. */
  ghost predicate ItemValid(h: Graph, todo: set<nat>, item: WorkItem, best: FeeFrac) {
    && item.und != {} && ItemSets(h, todo, item.inc, item.und)
    && (item.inc.transactions == {} ==> item.pot == EMPTY)
    && (item.inc.transactions != {} ==>
        item.pot.size > 0 && Excess(best, item.inc.feerate) <= 0 && ItemBound(h, item, best))
  }

  ghost predicate ItemSets(h: Graph, todo: set<nat>, inc: SetInfo, und: set<nat>) {
    && Exact(h, inc) && Closed(h, inc.transactions, todo) && inc.transactions !! und
    && und <= todo && Closed(h, inc.transactions + und, todo)
  }

  ghost predicate ItemBound(h: Graph, item: WorkItem, best: FeeFrac) {
    forall b {:trigger Compatible(b, item.inc.transactions, item.und)} ::
        Compatible(b, item.inc.transactions, item.und) ==>
      Excess(item.pot, SetRate(h, b)) <= 0 || Excess(best, SetRate(h, b)) <= 0
  }

  /** A better best keeps items valid. */
  lemma {:induction false} ItemValidBetter(h: Graph, todo: set<nat>, item: WorkItem, best: FeeFrac, better: FeeFrac)
    requires PositiveSizes(h) && todo <= h.used && ItemValid(h, todo, item, best)
    requires best.size > 0 && better.size > 0 && Excess(better, best) <= 0
    ensures ItemValid(h, todo, item, better)
  {
    hide SetRate;
    if item.inc.transactions != {} {
      SetSizePositive(h, item.inc.transactions);
      FlatterTrans(better, best, item.inc.feerate);
      forall b | Compatible(b, item.inc.transactions, item.und)
        ensures Excess(item.pot, SetRate(h, b)) <= 0 || Excess(better, SetRate(h, b)) <= 0
      {
        SetSizePositive(h, b);
        if Excess(best, SetRate(h, b)) <= 0 { FlatterTrans(better, best, SetRate(h, b)); }
      }
    }
  }

  /** When an item with something included is dropped because its potential is not better than
      best, or no improver is left in it, it reaches no candidate better than best. */
  lemma {:induction false} PrunedIncluded(h: Graph, todo: set<nat>, item: WorkItem, best: FeeFrac, imp: set<nat>,
      o: set<nat>)
    requires PositiveSizes(h) && todo <= h.used && ItemValid(h, todo, item, best) && item.inc.transactions != {}
    requires best.size > 0 && Improvers(h, imp, todo, best) && BestCandidate(h, o, todo)
    requires Excess(best, SetRate(h, o)) > 0
    requires item.und !! imp || Excess(best, item.pot) <= 0
    ensures !Reaches(h, todo, o, item.inc.transactions, item.und)
  {
    hide SetRate, SetSum;
    var inc := item.inc.transactions;
    forall b ensures !Holds(h, todo, o, inc, item.und, b) {
      if Holds(h, todo, o, inc, item.und, b) {
        SetSizePositive(h, b);
        if item.und !! imp {
          NoImproverLeft(h, todo, item, best, imp, b);
        } else {
          assert Compatible(b, inc, item.und);
          if Excess(best, SetRate(h, b)) > 0 { FlatterTrans(best, item.pot, SetRate(h, b)); }
        }
        NotBest(h, todo, best, o, b);
        assert false;
      }
    }
  }

  lemma {:induction false} NoImproverLeft(h: Graph, todo: set<nat>, item: WorkItem, best: FeeFrac, imp: set<nat>,
      b: set<nat>)
    requires PositiveSizes(h) && todo <= h.used && ItemValid(h, todo, item, best) && item.inc.transactions != {}
    requires best.size > 0 && Improvers(h, imp, todo, best) && item.und !! imp
    requires Compatible(b, item.inc.transactions, item.und)
    ensures Excess(best, SetRate(h, b)) <= 0
  {
    hide SetRate, SetSum;
    var inc := item.inc.transactions;
    var w := Slope(h, best);
    forall e | e in b - inc ensures w(e) <= 0 {
      assert e in todo && e !in imp;
      assert !Higher(FeeRate(h, e), best);
      SlopeIs(h, best, e);
    }
    SetSumSign(w, b - inc);
    assert b == inc + (b - inc);
    SetSumUnion(w, inc, b - inc);
    SetExcess(h, best, inc);
    SetExcess(h, best, b);
  }

  /** A set no steeper than best is not a best candidate while best is worse than those. */
  lemma {:induction false} NotBest(h: Graph, todo: set<nat>, best: FeeFrac, o: set<nat>, b: set<nat>)
    requires PositiveSizes(h) && todo <= h.used && best.size > 0 && Candidate(h, o, todo) && Candidate(h, b, todo)
    requires Excess(best, SetRate(h, o)) > 0 && Excess(best, SetRate(h, b)) <= 0
    ensures SetSum(Slope(h, SetRate(h, o)), b) < 0
  {
    hide SetRate, SetSum;
    var ro, rb := SetRate(h, o), SetRate(h, b);
    SetSizePositive(h, o);
    SetSizePositive(h, b);
    ExcessAntisymmetric(best, ro);
    FlatterTrans(ro, best, rb);
    SetExcess(h, ro, b);
  }

  /** Likewise for an item with nothing included whose steepest transaction is no better. */
  lemma {:induction false} PrunedEmpty(h: Graph, todo: set<nat>, und: set<nat>, first: nat, best: FeeFrac, o: set<nat>)
    requires PositiveSizes(h) && todo <= h.used && ByFeerate(h) && und <= todo && first in und
    requires forall e :: e in und ==> first <= e
    requires best.size > 0 && BestCandidate(h, o, todo) && Excess(best, SetRate(h, o)) > 0
    requires Excess(best, FeeRate(h, first)) <= 0
    ensures !Reaches(h, todo, o, {}, und)
  {
    hide SetRate, SetSum;
    forall b ensures !Holds(h, todo, o, {}, und, b) {
      if Holds(h, todo, o, {}, und, b) {
        forall e | e in b ensures Slope(h, best)(e) <= 0 {
          assert first in h.used && e in h.used;
          assert FeeRate(h, first).size > 0 && FeeRate(h, e).size > 0;
          if e != first { FlatterTrans(best, FeeRate(h, first), FeeRate(h, e)); }
          SlopeIs(h, best, e);
        }
        SetSumSign(Slope(h, best), b);
        SetExcess(h, best, b);
        NotBest(h, todo, best, o, b);
        assert false;
      }
    }
  }

  // ---- The first items: one per connected component ----

  lemma {:induction false} ComponentReaches(h: Graph, todo: set<nat>, o: set<nat>, c: set<nat>)
    requires WellFormed(h) && PositiveSizes(h) && todo <= h.used && BestCandidate(h, o, todo)
    requires Separated(h, c, todo) && o * c != {}
    ensures Reaches(h, todo, o, {}, c)
  {
    hide SetRate, SetSum;
    var w := Slope(h, SetRate(h, o));
    var a, b := o * c, o - c;
    SetSumSplit(w, o, c);
    SetExcess(h, SetRate(h, o), o);
    assert Candidate(h, a, todo);
    if b == {} {
      SetSumEmpty(w);
    } else {
      assert Closed(h, b, todo) by { ComponentRest(h, todo, o, c); }
      assert Candidate(h, b, todo);
    }
    SelfExcess(SetRate(h, o));
    assert Holds(h, todo, o, {}, c, a);
  }

  lemma {:induction false} SelfExcess(a: FeeFrac)
    ensures Excess(a, a) == 0
  {
  }

  lemma {:induction false} ComponentRest(h: Graph, todo: set<nat>, o: set<nat>, c: set<nat>)
    requires WellFormed(h) && todo <= h.used && Closed(h, o, todo) && Separated(h, c, todo)
    ensures Closed(h, o - c, todo)
  {
    forall x, a | x in o - c && a in Anc(h, x) * todo ensures a in o - c {
      assert a in c ==> x in Desc(h, a) * todo;
    }
  }
}
